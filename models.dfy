/** Record shapes, error values and the short-code codec shared by every part of
    the URL store (internal/models/models.go, internal/storage/errors.go,
    internal/services/errors.go). */
module Models {

  datatype Option<+T> = None | Some(value: T)

  /** The errors the core can return. The storage and services packages each
      declare their own "error finding URL" value; they are distinct values in
      Go, so they are distinct constructors here. */
  datatype Error =
    | ErrorDuplicate        // storage: duplicate URL record
    | ErrorNotFound         // storage: error finding URL
    | ErrorURLDeleted       // storage: URL was deleted
    | ErrorURLSave          // storage: can't save URL
    | ErrorServiceNotFound  // services: error finding URL
    | ErrorNoDB             // services: error connecting DB
    | UniqueViolation       // a driver error carrying PostgreSQL code 23505
    | DriverFailure         // any other error from the SQL driver or the connection
    | NoRows                // scanning a single-row query that matched no row
    | LogWriteFailure       // the JSON encoder could not append the record to the log file
    | DecodeFailure         // a log line or a config file that is not valid JSON
    | FileFailure           // opening, reading or scanning a file failed
    | Canceled              // ctx.Err() of a cancelled context

  /** One stored URL; on the log it is one JSON line. */
  datatype URLRecord = URLRecord(userID: string, shortURL: string, url: string, deleted: bool)

  /** One pending tombstone request. */
  datatype DeleteRecord = DeleteRecord(userID: string, shortURL: string)

  datatype BatchRequest = BatchRequest(id: string, url: string, userID: string)

  datatype BatchResponse = BatchResponse(id: string, short: string)

  datatype UserURL = UserURL(shortURL: string, originalURL: string)

  datatype Stats = Stats(urls: int, users: int)

  /** The deterministic URL-to-short-code encoder (base62 of the URL's bytes). */
  type Codec = string -> string

  /** The responses of a batch: the caller's id with the code of its URL, in request order. */
  function Responses(encode: Codec, req: seq<BatchRequest>): seq<BatchResponse> {
    seq(|req|, k requires 0 <= k < |req| => BatchResponse(req[k].id, encode(req[k].url)))
  }

  ghost predicate Injective(encode: Codec) {
    forall a, b :: encode(a) == encode(b) ==> a == b
  }

  /** The first index in [i, n) that is in `faults`, or n when there is none:
      the statement at which a loop of n driver calls stops. */
  function FirstFault(faults: set<nat>, i: nat, n: nat): (k: nat)
    requires i <= n
    ensures i <= k <= n
    ensures k < n ==> k in faults
    ensures forall j :: i <= j < k ==> j !in faults
    decreases n - i
  {
    if i == n then n
    else if i in faults then i
    else FirstFault(faults, i + 1, n)
  }
}
