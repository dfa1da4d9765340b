/** The deferred-delete pipeline of internal/services/delete_urls.go, run as a
    sequential state machine. The goroutines, the fan-in channel, the ticker and
    the context are replaced by the sequence of events the coordinating select
    observes; each commit attempt k meets the faults faults[k] (none when absent). */
module Deletion {
  import opened Models
  import Table

  /** The buffer length at which a batch is committed at once. */
  const FlushSize: nat := 10

  /** What the select of the coordinating loop receives next: a record from the
      fan-in channel, a ticker tick, the fan-in channel closing, or ctx.Done(). */
  datatype Event = Item(rec: DeleteRecord) | Tick | Closed | Cancel

  /** The loop returned with an error (or nil), or it is still waiting when the events run out. */
  datatype Outcome = Returned(err: Option<Error>) | Waiting

  /** The state of the loop when it stopped: its outcome, the records received
      but not handed to commitDB, the table, and every batch handed to commitDB, in order. */
  datatype Run = Run(outcome: Outcome, buffer: seq<DeleteRecord>, db: Option<Table.Table>,
                     batches: seq<seq<DeleteRecord>>)

  datatype Committed = Committed(db: Option<Table.Table>, err: Option<Error>)

  function FaultsOf(faults: seq<Table.TxFaults>, k: nat): Table.TxFaults {
    if k < |faults| then faults[k] else Table.NoTxFaults
  }

  /** commitDB: without a database it succeeds and records nothing; with one,
      the records are tombstoned in one transaction that is kept only when BeginTx,
      every update and Commit succeed. */
  function CommitDB(db: Option<Table.Table>, records: seq<DeleteRecord>, f: Table.TxFaults): (r: Committed)
    ensures db.None? ==> r == Committed(None, None)
    ensures db.Some? ==> r.db.Some?
    ensures r.err != None ==> r.db == db && r.err == Some(DriverFailure)
    ensures db.Some? ==>
      (r.err == None <==> !f.begin && !f.commit && FirstFault(f.stmts, 0, |records|) == |records|)
    ensures db.Some? && r.err == None ==> r.db.value == Table.TombstoneAll(db.value, records)
  {
    match db
    case None => Committed(None, None)
    case Some(t) =>
      if f.begin then Committed(db, Some(DriverFailure))
      else
        Table.DeleteStopsAtFirstError(t, records, f.stmts, 0);
        assert records[0..|records|] == records;
        var e := Table.DeleteFrom(t, records, f.stmts, 0);
        if e.err != None then Committed(db, e.err)
        else if f.commit then Committed(db, Some(DriverFailure))
        else Committed(Some(e.table), None)
  }

  /** A final commit that ends the loop with commitDB's result. */
  function Final(db: Option<Table.Table>, buffer: seq<DeleteRecord>, faults: seq<Table.TxFaults>,
                 batches: seq<seq<DeleteRecord>>): Run
  {
    var c := CommitDB(db, buffer, FaultsOf(faults, |batches|));
    Run(Returned(c.err), [], c.db, batches + [buffer])
  }

  /** processURLs from a given buffer and commit history onwards. */
  function Process(db: Option<Table.Table>, events: seq<Event>, faults: seq<Table.TxFaults>,
                   buffer: seq<DeleteRecord>, batches: seq<seq<DeleteRecord>>): Run
    decreases |events|
  {
    if events == [] then Run(Waiting, buffer, db, batches)
    else match events[0]
      case Cancel => Run(Returned(Some(Canceled)), buffer, db, batches)
      case Closed =>
        if |buffer| > 0 then Final(db, buffer, faults, batches)
        else Run(Returned(None), buffer, db, batches)
      case Item(rec) =>
        var b := buffer + [rec];
        if |b| >= FlushSize then
          var c := CommitDB(db, b, FaultsOf(faults, |batches|));
          if c.err != None then Run(Returned(c.err), [], c.db, batches + [b])
          else Process(c.db, events[1..], faults, [], batches + [b])
        else Process(db, events[1..], faults, b, batches)
      case Tick =>
        if |buffer| > 0 then Final(db, buffer, faults, batches)
        else Process(db, events[1..], faults, buffer, batches)
  }

  /** processURLs: one select per event; a full buffer is committed and emptied,
      a tick with a non-empty buffer commits it and returns, the closed channel
      commits what is left and returns, cancellation returns at once. */
  method ProcessURLs(db: Option<Table.Table>, events: seq<Event>, faults: seq<Table.TxFaults>)
    returns (run: Run)
    ensures run == Process(db, events, faults, [], [])
  {
    var buffer: seq<DeleteRecord> := [];
    var batches: seq<seq<DeleteRecord>> := [];
    var cur := db;
    var i := 0;
    while i < |events|
      invariant 0 <= i <= |events|
      invariant Process(db, events, faults, [], []) == Process(cur, events[i..], faults, buffer, batches)
    {
      assert events[i..][1..] == events[i + 1..];
      match events[i] {
      case Cancel =>
        return Run(Returned(Some(Canceled)), buffer, cur, batches);
      case Closed =>
        if |buffer| > 0 {
          var c := CommitDB(cur, buffer, FaultsOf(faults, |batches|));
          return Run(Returned(c.err), [], c.db, batches + [buffer]);
        }
        return Run(Returned(None), buffer, cur, batches);
      case Item(rec) =>
        buffer := buffer + [rec];
        if |buffer| >= FlushSize {
          var c := CommitDB(cur, buffer, FaultsOf(faults, |batches|));
          batches := batches + [buffer];
          if c.err != None {
            return Run(Returned(c.err), [], c.db, batches);
          }
          cur := c.db;
          buffer := [];
        }
      case Tick =>
        if |buffer| > 0 {
          var c := CommitDB(cur, buffer, FaultsOf(faults, |batches|));
          return Run(Returned(c.err), [], c.db, batches + [buffer]);
        }
      }
      i := i + 1;
    }
    return Run(Waiting, buffer, cur, batches);
  }

  /** DeleteURLs' intake: one record per requested code, in order, tagged with
      the caller's user, duplicates kept. */
  method FillChannel(req: seq<string>, userID: string) returns (ch: seq<DeleteRecord>)
    ensures |ch| == |req|
    ensures forall i :: 0 <= i < |req| ==> ch[i] == DeleteRecord(userID, req[i])
  {
    ch := [];
    for i := 0 to |req|
      invariant |ch| == i
      invariant forall j :: 0 <= j < i ==> ch[j] == DeleteRecord(userID, req[j])
    {
      ch := ch + [DeleteRecord(userID, req[i])];
    }
  }

  // ---------------------------------------------------------------- accounting

  function Items(events: seq<Event>): seq<DeleteRecord>
    decreases |events|
  {
    if events == [] then []
    else (if events[0].Item? then [events[0].rec] else []) + Items(events[1..])
  }

  function Flatten(batches: seq<seq<DeleteRecord>>): seq<DeleteRecord>
    decreases |batches|
  {
    if batches == [] then [] else Flatten(batches[..|batches| - 1]) + batches[|batches| - 1]
  }

  predicate IsPrefix<T(==)>(a: seq<T>, b: seq<T>) {
    |a| <= |b| && b[..|a|] == a
  }

  lemma FlattenPush(batches: seq<seq<DeleteRecord>>, b: seq<DeleteRecord>)
    ensures Flatten(batches + [b]) == Flatten(batches) + b
  {
    assert (batches + [b])[..|batches|] == batches;
  }

  /** Every received record is handed to commitDB at most once and batches keep
      arrival order: the committed batches followed by the buffer are a prefix of
      the records received, and all of them while the loop is still waiting. */
  lemma {:induction false} EachRecordAtMostOnce(db: Option<Table.Table>, events: seq<Event>,
                                                faults: seq<Table.TxFaults>,
                                                buffer: seq<DeleteRecord>, batches: seq<seq<DeleteRecord>>)
    ensures var run := Process(db, events, faults, buffer, batches);
      && IsPrefix(Flatten(run.batches) + run.buffer, Flatten(batches) + buffer + Items(events))
      && (run.outcome == Waiting ==>
            Flatten(run.batches) + run.buffer == Flatten(batches) + buffer + Items(events))
      && IsPrefix(batches, run.batches)
    decreases |events|
  {
    var total := Flatten(batches) + buffer + Items(events);
    if events == [] {
    } else {
      var rest := events[1..];
      match events[0]
      case Cancel =>
        assert Items(events) == Items(rest);
      case Closed =>
        FlattenPush(batches, buffer);
        assert (batches + [buffer])[..|batches|] == batches;
      case Tick =>
        FlattenPush(batches, buffer);
        assert (batches + [buffer])[..|batches|] == batches;
        assert Items(events) == Items(rest);
        if |buffer| == 0 {
          EachRecordAtMostOnce(db, rest, faults, buffer, batches);
        }
      case Item(rec) =>
        var b := buffer + [rec];
        assert Items(events) == [rec] + Items(rest);
        assert total == Flatten(batches) + b + Items(rest);
        if |b| >= FlushSize {
          FlattenPush(batches, b);
          assert (batches + [b])[..|batches|] == batches;
          var c := CommitDB(db, b, FaultsOf(faults, |batches|));
          if c.err == None {
            EachRecordAtMostOnce(c.db, rest, faults, [], batches + [b]);
            var run := Process(c.db, rest, faults, [], batches + [b]);
            assert Process(db, events, faults, buffer, batches) == run;
            assert Flatten(batches + [b]) + [] + Items(rest) == total;
            assert run.batches[..|batches|] == run.batches[..|batches| + 1][..|batches|];
          }
        } else {
          EachRecordAtMostOnce(db, rest, faults, b, batches);
          assert Process(db, events, faults, buffer, batches) == Process(db, rest, faults, b, batches);
        }
    }
  }

  /** Between events the buffer holds fewer than FlushSize records. */
  lemma {:induction false} BufferBelowFlush(db: Option<Table.Table>, events: seq<Event>,
                                            faults: seq<Table.TxFaults>,
                                            buffer: seq<DeleteRecord>, batches: seq<seq<DeleteRecord>>)
    requires |buffer| < FlushSize
    ensures var run := Process(db, events, faults, buffer, batches);
      run.outcome == Waiting ==> |run.buffer| < FlushSize
    decreases |events|
  {
    if events != [] {
      var rest := events[1..];
      match events[0]
      case Cancel =>
      case Closed =>
      case Tick =>
        if |buffer| == 0 {
          BufferBelowFlush(db, rest, faults, buffer, batches);
        }
      case Item(rec) =>
        var b := buffer + [rec];
        if |b| >= FlushSize {
          var c := CommitDB(db, b, FaultsOf(faults, |batches|));
          if c.err == None {
            BufferBelowFlush(c.db, rest, faults, [], batches + [b]);
          }
        } else {
          BufferBelowFlush(db, rest, faults, b, batches);
        }
    }
  }

  ghost predicate AllFull(batches: seq<seq<DeleteRecord>>) {
    forall j :: 0 <= j < |batches| ==> |batches[j]| == FlushSize
  }

  /** Every batch handed to commitDB holds between 1 and FlushSize records, and
      every batch but the last is a full one; while the loop is waiting, all are full. */
  lemma {:induction false} BatchSizes(db: Option<Table.Table>, events: seq<Event>,
                                      faults: seq<Table.TxFaults>,
                                      buffer: seq<DeleteRecord>, batches: seq<seq<DeleteRecord>>)
    requires AllFull(batches) && |buffer| < FlushSize
    ensures var run := Process(db, events, faults, buffer, batches);
      && |batches| <= |run.batches|
      && (forall j :: 0 <= j < |run.batches| ==> 0 < |run.batches[j]| <= FlushSize)
      && (forall j :: 0 <= j < |run.batches| - 1 ==> |run.batches[j]| == FlushSize)
      && (run.outcome == Waiting ==> AllFull(run.batches))
    decreases |events|
  {
    if events != [] {
      var rest := events[1..];
      match events[0]
      case Cancel =>
      case Closed =>
      case Tick =>
        if |buffer| == 0 {
          BatchSizes(db, rest, faults, buffer, batches);
        }
      case Item(rec) =>
        var b := buffer + [rec];
        if |b| >= FlushSize {
          var c := CommitDB(db, b, FaultsOf(faults, |batches|));
          if c.err == None {
            BatchSizes(c.db, rest, faults, [], batches + [b]);
          }
        } else {
          BatchSizes(db, rest, faults, b, batches);
        }
    }
  }

  /** Without a database no commit fails and nothing is recorded: the loop can
      only end in nil or in the cancellation error. */
  lemma {:induction false} NoDatabaseRecordsNothing(events: seq<Event>, faults: seq<Table.TxFaults>,
                                                    buffer: seq<DeleteRecord>, batches: seq<seq<DeleteRecord>>)
    ensures var run := Process(None, events, faults, buffer, batches);
      run.db == None && (run.outcome == Returned(None) || run.outcome == Returned(Some(Canceled)) || run.outcome == Waiting)
    decreases |events|
  {
    if events != [] {
      var rest := events[1..];
      match events[0]
      case Cancel =>
      case Closed =>
      case Tick =>
        if |buffer| == 0 {
          NoDatabaseRecordsNothing(rest, faults, buffer, batches);
        }
      case Item(rec) =>
        var b := buffer + [rec];
        if |b| >= FlushSize {
          NoDatabaseRecordsNothing(rest, faults, [], batches + [b]);
        } else {
          NoDatabaseRecordsNothing(rest, faults, b, batches);
        }
    }
  }

  // ---------------------------------------------------------------- composing runs

  /** Running a + b is running a, then, if the loop is still waiting, running b from where a left off. */
  lemma {:induction false} ProcessSplit(db: Option<Table.Table>, a: seq<Event>, b: seq<Event>,
                                        faults: seq<Table.TxFaults>,
                                        buffer: seq<DeleteRecord>, batches: seq<seq<DeleteRecord>>)
    ensures Process(db, a + b, faults, buffer, batches) ==
      var run := Process(db, a, faults, buffer, batches);
      if run.outcome == Waiting then Process(run.db, b, faults, run.buffer, run.batches) else run
    decreases |a|
  {
    if a == [] {
      assert a + b == b;
    } else {
      assert (a + b)[0] == a[0];
      assert (a + b)[1..] == a[1..] + b;
      match a[0]
      case Cancel =>
      case Closed =>
      case Tick =>
        ProcessSplit(db, a[1..], b, faults, buffer, batches);
      case Item(rec) =>
        var nb := buffer + [rec];
        if |nb| >= FlushSize {
          var c := CommitDB(db, nb, FaultsOf(faults, |batches|));
          ProcessSplit(c.db, a[1..], b, faults, [], batches + [nb]);
        } else {
          ProcessSplit(db, a[1..], b, faults, nb, batches);
        }
    }
  }

  /** Cancellation returns ctx.Err() and commits nothing from the pending buffer. */
  lemma CancelDropsBuffer(db: Option<Table.Table>, a: seq<Event>, rest: seq<Event>, faults: seq<Table.TxFaults>)
    requires Process(db, a, faults, [], []).outcome == Waiting
    ensures var before := Process(db, a, faults, [], []);
      Process(db, a + [Cancel] + rest, faults, [], []) ==
        Run(Returned(Some(Canceled)), before.buffer, before.db, before.batches)
  {
    assert a + [Cancel] + rest == a + ([Cancel] + rest);
    ProcessSplit(db, a, [Cancel] + rest, faults, [], []);
  }

  /** A tick with a non-empty buffer commits it and ends processing, whatever input
      remains; a tick with an empty buffer lets the loop go on. */
  lemma TickFlushesAndStops(db: Option<Table.Table>, a: seq<Event>, rest: seq<Event>, faults: seq<Table.TxFaults>)
    requires Process(db, a, faults, [], []).outcome == Waiting
    ensures var before := Process(db, a, faults, [], []);
      Process(db, a + [Tick] + rest, faults, [], []) ==
        if |before.buffer| > 0 then Final(before.db, before.buffer, faults, before.batches)
        else Process(before.db, rest, faults, before.buffer, before.batches)
  {
    assert a + [Tick] + rest == a + ([Tick] + rest);
    ProcessSplit(db, a, [Tick] + rest, faults, [], []);
    assert ([Tick] + rest)[1..] == rest;
  }

  /** The closed channel commits a non-empty buffer once and returns its result;
      with an empty buffer it returns nil without a commit. */
  lemma ClosedFinalFlush(db: Option<Table.Table>, a: seq<Event>, rest: seq<Event>, faults: seq<Table.TxFaults>)
    requires Process(db, a, faults, [], []).outcome == Waiting
    ensures var before := Process(db, a, faults, [], []);
      Process(db, a + [Closed] + rest, faults, [], []) ==
        if |before.buffer| > 0 then Final(before.db, before.buffer, faults, before.batches)
        else Run(Returned(None), before.buffer, before.db, before.batches)
  {
    assert a + [Closed] + rest == a + ([Closed] + rest);
    ProcessSplit(db, a, [Closed] + rest, faults, [], []);
  }

  /** The record that fills the buffer to FlushSize is committed with it as one
      batch; a commit error is returned at once, otherwise the buffer is emptied. */
  lemma FullBufferCommits(db: Option<Table.Table>, a: seq<Event>, rec: DeleteRecord, rest: seq<Event>,
                          faults: seq<Table.TxFaults>)
    requires Process(db, a, faults, [], []).outcome == Waiting
    requires |Process(db, a, faults, [], []).buffer| == FlushSize - 1
    ensures var before := Process(db, a, faults, [], []);
      var b := before.buffer + [rec];
      var c := CommitDB(before.db, b, FaultsOf(faults, |before.batches|));
      Process(db, a + [Item(rec)] + rest, faults, [], []) ==
        if c.err != None then Run(Returned(c.err), [], c.db, before.batches + [b])
        else Process(c.db, rest, faults, [], before.batches + [b])
  {
    assert a + [Item(rec)] + rest == a + ([Item(rec)] + rest);
    ProcessSplit(db, a, [Item(rec)] + rest, faults, [], []);
    assert ([Item(rec)] + rest)[1..] == rest;
  }

  // ---------------------------------------------------------------- scenarios

  function ItemEvents(recs: seq<DeleteRecord>): seq<Event> {
    seq(|recs|, i requires 0 <= i < |recs| => Item(recs[i]))
  }

  /** Records that do not fill the buffer are only buffered. */
  lemma {:induction false} ItemsAreBuffered(db: Option<Table.Table>, recs: seq<DeleteRecord>,
                                            faults: seq<Table.TxFaults>,
                                            buffer: seq<DeleteRecord>, batches: seq<seq<DeleteRecord>>)
    requires |buffer| + |recs| < FlushSize
    ensures Process(db, ItemEvents(recs), faults, buffer, batches) == Run(Waiting, buffer + recs, db, batches)
    decreases |recs|
  {
    if recs != [] {
      assert ItemEvents(recs)[1..] == ItemEvents(recs[1..]);
      ItemsAreBuffered(db, recs[1..], faults, buffer + [recs[0]], batches);
      assert buffer + [recs[0]] + recs[1..] == buffer + recs;
    }
  }

  /** Ten requests in quick succession are committed exactly once, as one batch, without a tick. */
  lemma TenRequestsCommitOnce(db: Option<Table.Table>, recs: seq<DeleteRecord>, faults: seq<Table.TxFaults>)
    requires |recs| == FlushSize
    ensures var c := CommitDB(db, recs, FaultsOf(faults, 0));
      Process(db, ItemEvents(recs), faults, [], []) ==
        Run(if c.err == None then Waiting else Returned(c.err), [], c.db, [recs])
  {
    var first := recs[..FlushSize - 1];
    var last := recs[FlushSize - 1];
    assert ItemEvents(recs) == ItemEvents(first) + [Item(last)];
    ProcessSplit(db, ItemEvents(first), [Item(last)], faults, [], []);
    ItemsAreBuffered(db, first, faults, [], []);
    assert [] + first + [last] == recs;
  }

  /** Three requests followed by a tick are committed in one transaction, and the loop returns. */
  lemma ThreeRequestsThenTick(db: Option<Table.Table>, recs: seq<DeleteRecord>, faults: seq<Table.TxFaults>)
    requires |recs| == 3
    ensures var c := CommitDB(db, recs, FaultsOf(faults, 0));
      Process(db, ItemEvents(recs) + [Tick], faults, [], []) == Run(Returned(c.err), [], c.db, [recs])
  {
    ProcessSplit(db, ItemEvents(recs), [Tick], faults, [], []);
    ItemsAreBuffered(db, recs, faults, [], []);
    assert [] + recs == recs;
    assert [Tick][1..] == [];
  }

  /** One request followed by cancellation: the cancellation error, and no commit. */
  lemma OneRequestThenCancel(db: Option<Table.Table>, rec: DeleteRecord, faults: seq<Table.TxFaults>)
    ensures Process(db, [Item(rec), Cancel], faults, [], []) ==
      Run(Returned(Some(Canceled)), [rec], db, [])
  {
    assert [Item(rec), Cancel][1..] == [Cancel];
  }

  // ---------------------------------------------------------------- DeleteURLs

  /** The records DeleteURLs queues for the requested codes. */
  function Requests(req: seq<string>, userID: string): seq<DeleteRecord> {
    seq(|req|, i requires 0 <= i < |req| => DeleteRecord(userID, req[i]))
  }

  /** The events DeleteURLs' processURLs can observe: the records of the channel
      in order, interleaved with ticks. The channel is closed only after processURLs
      returns and the context is context.Background(), so neither Closed nor Cancel occurs. */
  ghost predicate FromChannel(events: seq<Event>, ch: seq<DeleteRecord>) {
    IsPrefix(Items(events), ch) && forall i :: 0 <= i < |events| ==> events[i].Item? || events[i].Tick?
  }

  lemma {:induction false} TicksKeepWaiting(db: Option<Table.Table>, ticks: seq<Event>,
                                            faults: seq<Table.TxFaults>, batches: seq<seq<DeleteRecord>>)
    requires forall i :: 0 <= i < |ticks| ==> ticks[i] == Tick
    ensures Process(db, ticks, faults, [], batches) == Run(Waiting, [], db, batches)
    decreases |ticks|
  {
    if ticks != [] {
      TicksKeepWaiting(db, ticks[1..], faults, batches);
    }
  }

  lemma {:induction false} FlattenFull(batches: seq<seq<DeleteRecord>>)
    requires AllFull(batches)
    ensures |Flatten(batches)| == FlushSize * |batches|
    decreases |batches|
  {
    if batches != [] {
      FlattenFull(batches[..|batches| - 1]);
    }
  }

  /** Once every requested record has been received, if the last commit was a full
      batch the buffer is empty, the channel stays open and only ticks arrive, and an
      empty-buffer tick never returns: DeleteURLs waits forever. */
  lemma DeleteURLsWaitsForever(db: Option<Table.Table>, ch: seq<DeleteRecord>, received: seq<Event>,
                               ticks: seq<Event>, faults: seq<Table.TxFaults>)
    requires |ch| % FlushSize == 0
    requires Items(received) == ch
    requires Process(db, received, faults, [], []).outcome == Waiting
    requires forall i :: 0 <= i < |ticks| ==> ticks[i] == Tick
    ensures Process(db, received + ticks, faults, [], []).outcome == Waiting
  {
    var run := Process(db, received, faults, [], []);
    EachRecordAtMostOnce(db, received, faults, [], []);
    BufferBelowFlush(db, received, faults, [], []);
    BatchSizes(db, received, faults, [], []);
    FlattenFull(run.batches);
    assert |ch| == FlushSize * |run.batches| + |run.buffer|;
    assert |run.buffer| == 0;
    ProcessSplit(db, received, ticks, faults, [], []);
    TicksKeepWaiting(run.db, ticks, faults, run.batches);
  }

  /** Otherwise the first tick after the last record commits the remainder,
      the last |ch| % FlushSize records, and returns. */
  lemma DeleteURLsTickCommitsRemainder(db: Option<Table.Table>, ch: seq<DeleteRecord>, received: seq<Event>,
                                       rest: seq<Event>, faults: seq<Table.TxFaults>)
    requires |ch| % FlushSize != 0
    requires Items(received) == ch
    requires Process(db, received, faults, [], []).outcome == Waiting
    ensures var run := Process(db, received + [Tick] + rest, faults, [], []);
      run.outcome.Returned? && |run.batches| > 0 && run.batches[|run.batches| - 1] == ch[|ch| - |ch| % FlushSize..]
  {
    var before := Process(db, received, faults, [], []);
    EachRecordAtMostOnce(db, received, faults, [], []);
    BufferBelowFlush(db, received, faults, [], []);
    BatchSizes(db, received, faults, [], []);
    FlattenFull(before.batches);
    assert |ch| == FlushSize * |before.batches| + |before.buffer|;
    assert |before.buffer| == |ch| % FlushSize;
    assert Flatten([]) + [] + Items(received) == ch;
    assert Flatten(before.batches) + before.buffer == ch;
    assert before.buffer == ch[|ch| - |ch| % FlushSize..];
    TickFlushesAndStops(db, received, rest, faults);
    assert (before.batches + [before.buffer])[|before.batches|] == before.buffer;
  }
}
