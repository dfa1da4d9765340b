/** Building the store at start-up (internal/storage/storage.go): every line of
    the log file is decoded, the records are folded into the in-memory index,
    and a database handle is opened exactly when a DSN is configured; the file
    and the database themselves are inputs. */
module Storage {
  import opened Models
  import Table

  /** One line the scanner returns: a record, or text that does not decode. */
  datatype LogLine = Decoded(rec: URLRecord) | Garbled

  /** The store: the in-memory index, the records of the log file, and the
      table behind the database handle when there is one. */
  datatype Storage = Storage(urls: map<string, URLRecord>, log: seq<URLRecord>, db: Option<Table.Table>)

  /** Faults while opening: os.OpenFile fails, the scanner stops with an error,
      sql.Open fails, creating the schema fails. */
  datatype OpenFaults = OpenFaults(open: bool, scan: bool, connect: bool, schema: bool)

  datatype Opened = Opened(storage: Storage) | Failed(err: Error)

  predicate AllDecoded(lines: seq<LogLine>) {
    forall i :: 0 <= i < |lines| ==> lines[i].Decoded?
  }

  /** The records of a log whose every line decodes. */
  function Records(lines: seq<LogLine>): seq<URLRecord>
    requires AllDecoded(lines)
  {
    seq(|lines|, i requires 0 <= i < |lines| => lines[i].rec)
  }

  /** The index rebuilt from the log: each record under its original URL, later records overwriting earlier ones. */
  function Replay(records: seq<URLRecord>): map<string, URLRecord>
    decreases |records|
  {
    if records == [] then map[]
    else
      var last := records[|records| - 1];
      Replay(records[..|records| - 1])[last.url := last]
  }

  /** Every index entry is stored under its own short code. */
  ghost predicate CodeKeyed(s: Storage) {
    forall k :: k in s.urls ==> s.urls[k].shortURL == k
  }

  /** Every index entry's code is the encoding of its URL. */
  ghost predicate Encoded(s: Storage, encode: Codec) {
    forall k :: k in s.urls ==> encode(s.urls[k].url) == s.urls[k].shortURL
  }

  /** Every index entry is a record on the log. */
  ghost predicate Logged(s: Storage) {
    forall k :: k in s.urls ==> s.urls[k] in s.log
  }

  /** Storage.New: reads and decodes the whole log, rebuilds the index, and opens
      the database and its schema when a DSN is given. */
  method New(lines: seq<LogLine>, dbAddress: string, existing: Table.Table, f: OpenFaults)
    returns (r: Opened)
    ensures f.open ==> r == Failed(FileFailure)
    ensures !f.open && !AllDecoded(lines) ==> r == Failed(DecodeFailure)
    ensures r.Opened? <==>
      !f.open && AllDecoded(lines) && !f.scan && (dbAddress != "" ==> !f.connect && !f.schema)
    ensures r.Failed? && r.err == DriverFailure ==> dbAddress != "" && (f.connect || f.schema)
    ensures r.Opened? ==>
      && r.storage.log == Records(lines)
      && r.storage.urls == Replay(r.storage.log)
      && (r.storage.db == None <==> dbAddress == "")
      && (r.storage.db.Some? ==> r.storage.db.value == existing)
  {
    if f.open {
      return Failed(FileFailure);
    }
    var records: seq<URLRecord> := [];
    for i := 0 to |lines|
      invariant AllDecoded(lines[..i])
      invariant records == Records(lines[..i])
    {
      match lines[i]
      case Garbled =>
        return Failed(DecodeFailure);
      case Decoded(rec) =>
        assert lines[..i + 1] == lines[..i] + [lines[i]];
        records := records + [rec];
    }
    assert lines[..|lines|] == lines;
    if f.scan {
      return Failed(FileFailure);
    }

    var urls: map<string, URLRecord> := map[];
    for i := 0 to |records|
      invariant urls == Replay(records[..i])
    {
      assert records[..i + 1][..i] == records[..i];
      urls := urls[records[i].url := records[i]];
    }
    assert records[..|records|] == records;

    var db: Option<Table.Table> := None;
    if dbAddress != "" {
      if f.connect {
        return Failed(DriverFailure);
      }
      if f.schema {
        return Failed(DriverFailure);
      }
      db := Some(existing);
    }
    return Opened(Storage(urls, records, db));
  }

  /** The index's keys are exactly the URLs on the log, and each value is a
      record read from the log, deleted flag included, stored under its URL. */
  lemma {:induction false} ReplayEntries(records: seq<URLRecord>)
    ensures Replay(records).Keys == set r | r in records :: r.url
    ensures forall k :: k in Replay(records) ==> Replay(records)[k] in records && Replay(records)[k].url == k
    decreases |records|
  {
    if records != [] {
      var pre := records[..|records| - 1];
      var last := records[|records| - 1];
      ReplayEntries(pre);
      assert records == pre + [last];
      assert (set r | r in records :: r.url) == (set r | r in pre :: r.url) + {last.url};
    }
  }

  /** When a URL repeats on the log, its last record is the one indexed. */
  lemma {:induction false} ReplayLastWins(records: seq<URLRecord>, i: nat)
    requires i < |records|
    requires forall j :: i < j < |records| ==> records[j].url != records[i].url
    ensures records[i].url in Replay(records) && Replay(records)[records[i].url] == records[i]
    decreases |records|
  {
    var pre := records[..|records| - 1];
    if i < |pre| {
      ReplayLastWins(pre, i);
    }
  }

  /** A store built from the log satisfies Logged. */
  lemma ReplayIsLogged(records: seq<URLRecord>, db: Option<Table.Table>)
    ensures Logged(Storage(Replay(records), records, db))
  {
    ReplayEntries(records);
  }

  /** The rebuilt index is keyed by original URL, whereas saving and looking up
      key it by short code: a single logged record whose code differs from its URL
      already yields an index that is not CodeKeyed, and its code is not a key. */
  lemma ReplayKeysByURL(rec: URLRecord, db: Option<Table.Table>)
    requires rec.shortURL != rec.url
    ensures !CodeKeyed(Storage(Replay([rec]), [rec], db))
    ensures rec.url in Replay([rec]) && rec.shortURL !in Replay([rec])
  {
    assert [rec][..0] == [];
    var m := Replay([rec]);
    assert m[rec.url].shortURL != rec.url;
  }
}
