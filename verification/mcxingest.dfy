/** `insert_into_db` (bhavcopy_app/mcxdownloader.py:86-154): each JSON record becomes a
    16-column row, rows are sent to `bhav_mcx` with `executemany` in batches of 50, each
    batch committed on its own.

    As written, a batch whose `executemany` raises a database error is not cleared: the
    error is caught inside the loop and the same records, plus the next one, are sent again
    on the next iteration. A record that cannot be mapped (a missing key, a date `strptime`
    rejects, a non-text value where `.strip()` is called) raises an error the loop does not
    catch: processing stops there, batches committed before it stay, and the records
    gathered since the last commit are never sent. */
module McxIngest {
  import opened Basics
  import opened Text
  import opened Dates
  import opened Json

  /** One row of `bhav_mcx`, in the statement's column order. Values the code passes on
      untouched keep their JSON form. */
  datatype McxRow = McxRow(
    date: Date, symbol: string, expiry: Date,
    open: Json, high: Json, low: Json, close: Json, previousClose: Json,
    volume: Json, volumeInThousands: string, value: Json, openInterest: Json,
    dateDisplay: string, instrumentName: string, strikePrice: Json, optionType: string)

  /** `record[key]` when it is text, as `.strip()` and `strptime` need. */
  function TextMember(m: seq<(string, Json)>, key: string): Option<string>
  {
    match Lookup(m, key)
    case Some(JStr(s)) => Some(s)
    case _ => None
  }

  /** Every member the mapping reads is there, the text ones are text, and both dates
      parse (`%m/%d/%Y` and `%d%b%Y`). */
  predicate Mappable(rec: Json)
  {
    && rec.JObj?
    && var m := rec.members;
    && TextMember(m, "Date").Some? && ParseMonthDayYear(TextMember(m, "Date").value).Some?
    && TextMember(m, "Symbol").Some?
    && TextMember(m, "ExpiryDate").Some? && ParseDayMonthNameYear(TextMember(m, "ExpiryDate").value).Some?
    && Lookup(m, "Open").Some? && Lookup(m, "High").Some? && Lookup(m, "Low").Some?
    && Lookup(m, "Close").Some? && Lookup(m, "PreviousClose").Some? && Lookup(m, "Volume").Some?
    && TextMember(m, "VolumeInThousands").Some?
    && Lookup(m, "Value").Some? && Lookup(m, "OpenInterest").Some?
    && TextMember(m, "DateDisplay").Some? && TextMember(m, "InstrumentName").Some?
    && Lookup(m, "StrikePrice").Some? && TextMember(m, "OptionType").Some?
  }

  /** The tuple built for one record (bhavcopy_app/mcxdownloader.py:118-126); None when
      building it raises. Text columns are stripped of surrounding white space. */
  function MapRecord(rec: Json): (r: Option<McxRow>)
    ensures r.Some? <==> Mappable(rec)
    ensures r.Some? ==> IsStripOf(TextMember(rec.members, "Symbol").value, r.value.symbol)
                        && IsStripOf(TextMember(rec.members, "OptionType").value, r.value.optionType)
  {
    if !Mappable(rec) then None
    else
      var m := rec.members;
      Some(McxRow(
        ParseMonthDayYear(TextMember(m, "Date").value).value,
        Strip(TextMember(m, "Symbol").value),
        ParseDayMonthNameYear(TextMember(m, "ExpiryDate").value).value,
        Lookup(m, "Open").value, Lookup(m, "High").value, Lookup(m, "Low").value,
        Lookup(m, "Close").value, Lookup(m, "PreviousClose").value, Lookup(m, "Volume").value,
        Strip(TextMember(m, "VolumeInThousands").value),
        Lookup(m, "Value").value, Lookup(m, "OpenInterest").value,
        Strip(TextMember(m, "DateDisplay").value),
        Strip(TextMember(m, "InstrumentName").value),
        Lookup(m, "StrikePrice").value,
        Strip(TextMember(m, "OptionType").value)))
  }

  /** Field by field: the dates are the parsed `Date` and `ExpiryDate`, the five text
      columns are their members stripped, and the measures and `StrikePrice` are their
      members as given. */
  lemma MapRecordFields(rec: Json)
    requires Mappable(rec)
    ensures var r := MapRecord(rec).value;
            var m := rec.members;
            && ParseMonthDayYear(TextMember(m, "Date").value) == Some(r.date)
            && ParseDayMonthNameYear(TextMember(m, "ExpiryDate").value) == Some(r.expiry)
            && IsStripOf(TextMember(m, "Symbol").value, r.symbol)
            && IsStripOf(TextMember(m, "VolumeInThousands").value, r.volumeInThousands)
            && IsStripOf(TextMember(m, "DateDisplay").value, r.dateDisplay)
            && IsStripOf(TextMember(m, "InstrumentName").value, r.instrumentName)
            && IsStripOf(TextMember(m, "OptionType").value, r.optionType)
            && Lookup(m, "Open") == Some(r.open) && Lookup(m, "High") == Some(r.high)
            && Lookup(m, "Low") == Some(r.low) && Lookup(m, "Close") == Some(r.close)
            && Lookup(m, "PreviousClose") == Some(r.previousClose)
            && Lookup(m, "Volume") == Some(r.volume) && Lookup(m, "Value") == Some(r.value)
            && Lookup(m, "OpenInterest") == Some(r.openInterest)
            && Lookup(m, "StrikePrice") == Some(r.strikePrice)
  {
  }

  // ---------------------------------------------------------------------------------------
  // The table.

  /** The columns of `bhav_mcx` the statement binds. */
  datatype Column =
    | CDate | CSymbol | CExpiry | COpen | CHigh | CLow | CClose | CPreviousClose
    | CVolume | CVolumeInThousands | CValue | COpenInterest | CDateDisplay
    | CInstrumentName | CStrikePrice | COptionType

  datatype Cell = DateCell(d: Date) | TextCell(s: string) | JsonCell(j: Json)

  function CellOf(row: McxRow, c: Column): Cell
  {
    match c
    case CDate => DateCell(row.date)
    case CSymbol => TextCell(row.symbol)
    case CExpiry => DateCell(row.expiry)
    case COpen => JsonCell(row.open)
    case CHigh => JsonCell(row.high)
    case CLow => JsonCell(row.low)
    case CClose => JsonCell(row.close)
    case CPreviousClose => JsonCell(row.previousClose)
    case CVolume => JsonCell(row.volume)
    case CVolumeInThousands => TextCell(row.volumeInThousands)
    case CValue => JsonCell(row.value)
    case COpenInterest => JsonCell(row.openInterest)
    case CDateDisplay => TextCell(row.dateDisplay)
    case CInstrumentName => TextCell(row.instrumentName)
    case CStrikePrice => JsonCell(row.strikePrice)
    case COptionType => TextCell(row.optionType)
  }

  /** The columns the `ON DUPLICATE KEY UPDATE` clause overwrites. */
  predicate Refreshed(c: Column)
  {
    c in {COpen, CHigh, CLow, CClose, CPreviousClose, CVolume, CValue, COpenInterest}
  }

  /** The update clause: the stored row with open, high, low, close, previous close,
      volume, value and open interest taken from the new one. */
  function Refresh(stored: McxRow, incoming: McxRow): (r: McxRow)
    ensures forall c :: CellOf(r, c) == if Refreshed(c) then CellOf(incoming, c) else CellOf(stored, c)
  {
    stored.(open := incoming.open, high := incoming.high, low := incoming.low, close := incoming.close,
            previousClose := incoming.previousClose, volume := incoming.volume, value := incoming.value,
            openInterest := incoming.openInterest)
  }

  /** A stored row and its `created_at` and `updated_at` stamps. */
  datatype Stored = Stored(row: McxRow, createdAt: int, updatedAt: int)

  /** The table's unique key is not part of the source; it is the list of columns `keyCols`. */
  type Store = map<seq<Cell>, Stored>

  function KeyOf(row: McxRow, keyCols: seq<Column>): (k: seq<Cell>)
    ensures |k| == |keyCols|
    ensures forall i :: 0 <= i < |keyCols| ==> k[i] == CellOf(row, keyCols[i])
  {
    seq(|keyCols|, i requires 0 <= i < |keyCols| => CellOf(row, keyCols[i]))
  }

  predicate Consistent(store: Store, keyCols: seq<Column>)
  {
    forall k :: k in store ==> KeyOf(store[k].row, keyCols) == k
  }

  /** Refreshing never touches a key column, provided no key column is a measure. */
  lemma RefreshKeepsKey(stored: McxRow, incoming: McxRow, keyCols: seq<Column>)
    requires forall i :: 0 <= i < |keyCols| ==> !Refreshed(keyCols[i])
    ensures KeyOf(Refresh(stored, incoming), keyCols) == KeyOf(stored, keyCols)
  {
  }

  /** One row of a multi-row upsert run at time `now`: a new key is inserted stamped twice;
      a taken key has its measures refreshed and `updated_at` set, the rest kept. */
  function Upsert(store: Store, keyCols: seq<Column>, row: McxRow, now: int): (r: Store)
    ensures var k := KeyOf(row, keyCols);
            && r.Keys == store.Keys + {k}
            && (forall k' :: k' in store && k' != k ==> r[k'] == store[k'])
            && r[k].updatedAt == now
            && (k in store ==> r[k] == Stored(Refresh(store[k].row, row), store[k].createdAt, now))
            && (k !in store ==> r[k] == Stored(row, now, now))
  {
    var k := KeyOf(row, keyCols);
    if k in store then store[k := Stored(Refresh(store[k].row, row), store[k].createdAt, now)]
    else store[k := Stored(row, now, now)]
  }

  /** On a key conflict, exactly the eight measure columns take the incoming values: the
      other columns and `created_at` keep the stored ones. When no key column is a measure
      the table stays keyed by its rows. */
  lemma RefreshOnlyMeasures(store: Store, keyCols: seq<Column>, row: McxRow, now: int)
    requires KeyOf(row, keyCols) in store
    ensures var k := KeyOf(row, keyCols);
            var r := Upsert(store, keyCols, row, now);
            && r[k].createdAt == store[k].createdAt
            && r[k].updatedAt == now
            && forall c :: CellOf(r[k].row, c) == if Refreshed(c) then CellOf(row, c) else CellOf(store[k].row, c)
  {
  }

  lemma UpsertConsistent(store: Store, keyCols: seq<Column>, row: McxRow, now: int)
    requires Consistent(store, keyCols)
    requires forall i :: 0 <= i < |keyCols| ==> !Refreshed(keyCols[i])
    ensures Consistent(Upsert(store, keyCols, row, now), keyCols)
  {
    var k := KeyOf(row, keyCols);
    if k in store {
      RefreshKeepsKey(store[k].row, row, keyCols);
    }
  }

  /** One successful `executemany`: the batch's rows upserted in order, all at one `NOW()`. */
  function ApplyBatch(store: Store, keyCols: seq<Column>, batch: seq<McxRow>, now: int): (r: Store)
    ensures store.Keys <= r.Keys
    ensures forall i :: 0 <= i < |batch| ==> KeyOf(batch[i], keyCols) in r
    decreases |batch|
  {
    if |batch| == 0 then store
    else
      var n := |batch| - 1;
      var r := Upsert(ApplyBatch(store, keyCols, batch[..n], now), keyCols, batch[n], now);
      assert forall i :: 0 <= i < n ==> batch[..n][i] == batch[i];
      r
  }

  /** A key no row of the batch carries is left as it was. */
  lemma {:induction false} ApplyBatchElsewhere(store: Store, keyCols: seq<Column>, batch: seq<McxRow>, now: int, k: seq<Cell>)
    requires forall i :: 0 <= i < |batch| ==> KeyOf(batch[i], keyCols) != k
    ensures k in ApplyBatch(store, keyCols, batch, now) <==> k in store
    ensures k in store ==> ApplyBatch(store, keyCols, batch, now)[k] == store[k]
    decreases |batch|
  {
    if |batch| > 0 {
      ApplyBatchElsewhere(store, keyCols, batch[..|batch| - 1], now, k);
    }
  }

  lemma {:induction false} ApplyBatchConsistent(store: Store, keyCols: seq<Column>, batch: seq<McxRow>, now: int)
    requires Consistent(store, keyCols)
    requires forall i :: 0 <= i < |keyCols| ==> !Refreshed(keyCols[i])
    ensures Consistent(ApplyBatch(store, keyCols, batch, now), keyCols)
    decreases |batch|
  {
    if |batch| > 0 {
      var n := |batch| - 1;
      ApplyBatchConsistent(store, keyCols, batch[..n], now);
      UpsertConsistent(ApplyBatch(store, keyCols, batch[..n], now), keyCols, batch[n], now);
    }
  }

  // ---------------------------------------------------------------------------------------
  // The loop.

  /** `batch_size`. */
  const BatchSize: nat := 50

  /** The database: whether `connect` succeeds, whether the `j`-th `executemany` (with its
      commit) succeeds, and the `NOW()` it runs at. */
  datatype Db = Db(connects: bool, accepts: nat -> bool, clock: nat -> int)

  /** The loop's bookkeeping: `records` not yet sent, every batch sent so far (one per
      `executemany` call) and the batches committed. */
  datatype Ingest = Ingest(pending: seq<McxRow>, sent: seq<seq<McxRow>>, committed: seq<seq<McxRow>>)

  /** `cursor.executemany(insert_query, records)` followed by `conn.commit()` and, when they
      succeed, `records = []`. A failed call is caught and changes nothing but the log. */
  function Send(st: Ingest, db: Db): (r: Ingest)
    ensures r.sent == st.sent + [st.pending]
    ensures db.accepts(|st.sent|) ==> r.pending == [] && r.committed == st.committed + [st.pending]
    ensures !db.accepts(|st.sent|) ==> r.pending == st.pending && r.committed == st.committed
  {
    if db.accepts(|st.sent|) then Ingest([], st.sent + [st.pending], st.committed + [st.pending])
    else st.(sent := st.sent + [st.pending])
  }

  /** `records.append(...)`, then a send once 50 or more records are waiting. */
  function Push(st: Ingest, row: McxRow, db: Db): (r: Ingest)
    ensures |st.pending| + 1 < BatchSize ==> r == st.(pending := st.pending + [row])
    ensures |st.pending| + 1 >= BatchSize ==> r == Send(st.(pending := st.pending + [row]), db)
  {
    var st' := st.(pending := st.pending + [row]);
    if |st'.pending| >= BatchSize then Send(st', db) else st'
  }

  /** The `for record in bhavcopy_data` loop over the records' mapped rows (None where the
      mapping raises); the flag says the loop stopped at such a record. */
  function Loop(rows: seq<Option<McxRow>>, st: Ingest, db: Db): (r: (Ingest, bool))
    decreases |rows|
  {
    if |rows| == 0 then (st, false)
    else match rows[0]
      case None => (st, true)
      case Some(row) => Loop(rows[1..], Push(st, row, db), db)
  }

  /** The mapped row of each record. */
  function Mapped(records: seq<Json>): (rows: seq<Option<McxRow>>)
    ensures |rows| == |records|
    ensures forall i :: 0 <= i < |records| ==> rows[i] == MapRecord(records[i])
  {
    seq(|records|, i requires 0 <= i < |records| => MapRecord(records[i]))
  }

  /** The table once the accepted calls among `sent` have run, in call order, each at its
      own `NOW()`. */
  function Replay(store: Store, keyCols: seq<Column>, sent: seq<seq<McxRow>>, db: Db): (r: Store)
    ensures store.Keys <= r.Keys
    decreases |sent|
  {
    if |sent| == 0 then store
    else
      var n := |sent| - 1;
      var before := Replay(store, keyCols, sent[..n], db);
      if db.accepts(n) then ApplyBatch(before, keyCols, sent[n], db.clock(n)) else before
  }

  /** What `insert_into_db` leaves: the table, the batches sent and committed, and whether
      a record failed to map. */
  datatype IngestResult = IngestResult(store: Store, sent: seq<seq<McxRow>>, committed: seq<seq<McxRow>>, aborted: bool)

  /** The loop and, unless it stopped at a bad record, one last send of what is left. */
  function Batches(rows: seq<Option<McxRow>>, db: Db): (r: (Ingest, bool))
  {
    var (st, aborted) := Loop(rows, Ingest([], [], []), db);
    if !aborted && |st.pending| > 0 then (Send(st, db), false) else (st, aborted)
  }

  /** `insert_into_db(bhavcopy_data)`: nothing when the connection fails; otherwise the
      batches above, with the table changed by exactly the calls that succeeded. */
  function InsertIntoDb(records: seq<Json>, db: Db, keyCols: seq<Column>, store: Store): (r: IngestResult)
    ensures !db.connects ==> r == IngestResult(store, [], [], false)
    ensures db.connects ==> r.sent == Batches(Mapped(records), db).0.sent && r.aborted == Batches(Mapped(records), db).1
    ensures r.committed == AcceptedBatches(r.sent, db)
    ensures r.store.Keys == store.Keys + CommittedKeys(keyCols, r.committed)
    ensures forall k :: k in store && k !in CommittedKeys(keyCols, r.committed) ==> r.store[k] == store[k]
  {
    if !db.connects then IngestResult(store, [], [], false)
    else
      var rows := Mapped(records);
      var (st, aborted) := Batches(rows, db);
      CommitsAreAccepted(rows, db);
      ReplayKeys(store, keyCols, st.sent, db);
      var after := Replay(store, keyCols, st.sent, db);
      assert forall k :: k in store && k !in CommittedKeys(keyCols, st.committed) ==> after[k] == store[k] by {
        forall k | k in store && k !in CommittedKeys(keyCols, st.committed) {
          ReplayElsewhere(store, keyCols, st.sent, db, k);
        }
      }
      IngestResult(Replay(store, keyCols, st.sent, db), st.sent, st.committed, aborted)
  }

  /** The keys of the rows of one batch. */
  ghost function BatchKeys(keyCols: seq<Column>, batch: seq<McxRow>): set<seq<Cell>>
  {
    set i | 0 <= i < |batch| :: KeyOf(batch[i], keyCols)
  }

  /** The keys of the rows of a sequence of batches. */
  ghost function CommittedKeys(keyCols: seq<Column>, bs: seq<seq<McxRow>>): set<seq<Cell>>
  {
    set j, i | 0 <= j < |bs| && 0 <= i < |bs[j]| :: KeyOf(bs[j][i], keyCols)
  }

  lemma CommittedKeysSnoc(keyCols: seq<Column>, bs: seq<seq<McxRow>>, b: seq<McxRow>)
    ensures CommittedKeys(keyCols, bs + [b]) == CommittedKeys(keyCols, bs) + BatchKeys(keyCols, b)
  {
    var all := bs + [b];
    forall k | k in CommittedKeys(keyCols, all)
      ensures k in CommittedKeys(keyCols, bs) + BatchKeys(keyCols, b)
    {
      var j, i :| 0 <= j < |all| && 0 <= i < |all[j]| && k == KeyOf(all[j][i], keyCols);
      if j < |bs| {
        assert all[j] == bs[j];
      } else {
        assert all[j] == b;
      }
    }
    forall k | k in CommittedKeys(keyCols, bs)
      ensures k in CommittedKeys(keyCols, all)
    {
      var j, i :| 0 <= j < |bs| && 0 <= i < |bs[j]| && k == KeyOf(bs[j][i], keyCols);
      assert all[j] == bs[j];
    }
    forall k | k in BatchKeys(keyCols, b)
      ensures k in CommittedKeys(keyCols, all)
    {
      var i :| 0 <= i < |b| && k == KeyOf(b[i], keyCols);
      assert all[|bs|] == b;
    }
  }

  /** One successful `executemany` adds exactly the keys of its rows. */
  lemma {:induction false} ApplyBatchKeys(store: Store, keyCols: seq<Column>, batch: seq<McxRow>, now: int)
    ensures ApplyBatch(store, keyCols, batch, now).Keys == store.Keys + BatchKeys(keyCols, batch)
    decreases |batch|
  {
    if |batch| > 0 {
      var n := |batch| - 1;
      var front := batch[..n];
      ApplyBatchKeys(store, keyCols, front, now);
      BatchKeysSnoc(keyCols, batch);
    }
  }

  lemma BatchKeysSnoc(keyCols: seq<Column>, batch: seq<McxRow>)
    requires |batch| > 0
    ensures BatchKeys(keyCols, batch) == BatchKeys(keyCols, batch[..|batch| - 1]) + {KeyOf(batch[|batch| - 1], keyCols)}
  {
    var n := |batch| - 1;
    var front := batch[..n];
    forall k | k in BatchKeys(keyCols, batch)
      ensures k in BatchKeys(keyCols, front) + {KeyOf(batch[n], keyCols)}
    {
      var i :| 0 <= i < |batch| && k == KeyOf(batch[i], keyCols);
      if i < n { assert front[i] == batch[i]; }
    }
    forall k | k in BatchKeys(keyCols, front)
      ensures k in BatchKeys(keyCols, batch)
    {
      var i :| 0 <= i < n && k == KeyOf(front[i], keyCols);
      assert front[i] == batch[i];
    }
  }

  /** Replaying the calls adds exactly the keys of the accepted batches. */
  lemma {:induction false} ReplayKeys(store: Store, keyCols: seq<Column>, sent: seq<seq<McxRow>>, db: Db)
    ensures Replay(store, keyCols, sent, db).Keys == store.Keys + CommittedKeys(keyCols, AcceptedBatches(sent, db))
    decreases |sent|
  {
    if |sent| > 0 {
      var n := |sent| - 1;
      var front := AcceptedBatches(sent[..n], db);
      var before := Replay(store, keyCols, sent[..n], db);
      ReplayKeys(store, keyCols, sent[..n], db);
      if db.accepts(n) {
        ApplyBatchKeys(before, keyCols, sent[n], db.clock(n));
        CommittedKeysSnoc(keyCols, front, sent[n]);
      } else {
        assert AcceptedBatches(sent, db) == front;
      }
    }
  }

  /** A row whose key no accepted batch carries is left as it was. */
  lemma {:induction false} ReplayElsewhere(store: Store, keyCols: seq<Column>, sent: seq<seq<McxRow>>, db: Db, k: seq<Cell>)
    requires k in store && k !in CommittedKeys(keyCols, AcceptedBatches(sent, db))
    ensures k in Replay(store, keyCols, sent, db) && Replay(store, keyCols, sent, db)[k] == store[k]
    decreases |sent|
  {
    if |sent| > 0 {
      var n := |sent| - 1;
      var front := AcceptedBatches(sent[..n], db);
      var before := Replay(store, keyCols, sent[..n], db);
      if db.accepts(n) {
        CommittedKeysSnoc(keyCols, front, sent[n]);
        ReplayElsewhere(store, keyCols, sent[..n], db, k);
        ApplyBatchElsewhere(before, keyCols, sent[n], db.clock(n), k);
      } else {
        assert AcceptedBatches(sent, db) == front;
        ReplayElsewhere(store, keyCols, sent[..n], db, k);
      }
    }
  }

  // ---------------------------------------------------------------------------------------
  // Properties.

  /** The table stays keyed by its rows, provided no key column is a measure. */
  lemma {:induction false} ReplayConsistent(store: Store, keyCols: seq<Column>, sent: seq<seq<McxRow>>, db: Db)
    requires Consistent(store, keyCols)
    requires forall i :: 0 <= i < |keyCols| ==> !Refreshed(keyCols[i])
    ensures Consistent(Replay(store, keyCols, sent, db), keyCols)
    decreases |sent|
  {
    if |sent| > 0 {
      var n := |sent| - 1;
      ReplayConsistent(store, keyCols, sent[..n], db);
      if db.accepts(n) {
        ApplyBatchConsistent(Replay(store, keyCols, sent[..n], db), keyCols, sent[n], db.clock(n));
      }
    }
  }

  /** Every row of every accepted call is in the table afterwards. */
  lemma {:induction false} ReplayKeepsAccepted(store: Store, keyCols: seq<Column>, sent: seq<seq<McxRow>>, db: Db, j: nat, i: nat)
    requires j < |sent| && db.accepts(j) && i < |sent[j]|
    ensures KeyOf(sent[j][i], keyCols) in Replay(store, keyCols, sent, db)
    decreases |sent|
  {
    var n := |sent| - 1;
    if j < n {
      assert sent[..n][j] == sent[j];
      ReplayKeepsAccepted(store, keyCols, sent[..n], db, j, i);
    }
  }

  /** Every record is mapped. */
  predicate AllMapped(rows: seq<Option<McxRow>>)
  {
    forall i :: 0 <= i < |rows| ==> rows[i].Some?
  }

  function Values(rows: seq<Option<McxRow>>): (vs: seq<McxRow>)
    requires AllMapped(rows)
    ensures |vs| == |rows| && forall i :: 0 <= i < |rows| ==> rows[i] == Some(vs[i])
  {
    seq(|rows|, i requires 0 <= i < |rows| => rows[i].value)
  }

  /** The loop invariant when every call succeeds: the committed batches, then the waiting
      records, are the rows so far; every committed batch holds 50; fewer than 50 wait. */
  ghost predicate Chunked(st: Ingest, done: seq<McxRow>)
  {
    && Flatten(st.committed) + st.pending == done
    && (forall b :: b in st.committed ==> |b| == BatchSize)
    && |st.pending| < BatchSize
  }

  lemma PushChunked(st: Ingest, row: McxRow, db: Db, done: seq<McxRow>)
    requires Chunked(st, done) && forall j :: db.accepts(j)
    ensures Chunked(Push(st, row, db), done + [row])
  {
    var grown := st.pending + [row];
    if |grown| >= BatchSize {
      FlattenAppend(st.committed, grown);
    }
  }

  lemma {:induction false} LoopChunks(rows: seq<Option<McxRow>>, st: Ingest, db: Db, done: seq<McxRow>)
    requires forall j :: db.accepts(j)
    requires Chunked(st, done) && AllMapped(rows)
    ensures !Loop(rows, st, db).1 && Chunked(Loop(rows, st, db).0, done + Values(rows))
    decreases |rows|
  {
    if |rows| > 0 {
      var row := rows[0].value;
      PushChunked(st, row, db, done);
      assert Values(rows[1..]) == Values(rows)[1..];
      LoopChunks(rows[1..], Push(st, row, db), db, done + [row]);
      assert done + [row] + Values(rows[1..]) == done + Values(rows);
    }
  }

  lemma {:induction false} FullBatchesCount(bs: seq<seq<McxRow>>)
    requires forall b :: b in bs ==> |b| == BatchSize
    ensures |Flatten(bs)| == BatchSize * |bs|
    decreases |bs|
  {
    if |bs| > 0 {
      assert bs[0] in bs;
      assert forall b :: b in bs[1..] ==> b in bs;
      FullBatchesCount(bs[1..]);
    }
  }

  lemma CeilSplit(q: nat, r: nat)
    requires r < BatchSize
    ensures (BatchSize * q + r + BatchSize - 1) / BatchSize == if r == 0 then q else q + 1
  {
    if r == 0 {
      assert BatchSize * q + r + BatchSize - 1 == BatchSize * q + 49;
    } else {
      assert BatchSize * q + r + BatchSize - 1 == BatchSize * (q + 1) + (r - 1);
    }
  }

  /** When every record maps and every call succeeds, the committed batches split the rows
      in order into batches of 50 and one last, smaller, non-empty batch for the remainder:
      there are ceil(n / 50) commits. */
  lemma AllAcceptedPartition(rows: seq<Option<McxRow>>, db: Db)
    requires forall j :: db.accepts(j)
    requires AllMapped(rows)
    ensures var (st, aborted) := Batches(rows, db);
            && !aborted
            && st.committed == st.sent
            && Flatten(st.committed) == Values(rows)
            && |st.committed| == (|rows| + BatchSize - 1) / BatchSize
            && (forall i :: 0 <= i < |st.committed| - 1 ==> |st.committed[i]| == BatchSize)
            && (|st.committed| > 0 ==> 0 < |st.committed[|st.committed| - 1]| <= BatchSize)
  {
    var start := Ingest([], [], []);
    assert Chunked(start, []);
    LoopChunks(rows, start, db, []);
    assert [] + Values(rows) == Values(rows);
    var st := Loop(rows, start, db).0;
    FinalFlush(st, Values(rows), db);
    CommitsAreAccepted(rows, db);
    AllAcceptedCommitsAll(Batches(rows, db).0.sent, db);
  }

  /** The send after the loop, when every call succeeds: the batches split the rows. */
  lemma FinalFlush(st: Ingest, vs: seq<McxRow>, db: Db)
    requires forall j :: db.accepts(j)
    requires Chunked(st, vs)
    ensures var fin := if |st.pending| > 0 then Send(st, db) else st;
            && Flatten(fin.committed) == vs
            && |fin.committed| == (|vs| + BatchSize - 1) / BatchSize
            && (forall i :: 0 <= i < |fin.committed| - 1 ==> |fin.committed[i]| == BatchSize)
            && (|fin.committed| > 0 ==> 0 < |fin.committed[|fin.committed| - 1]| <= BatchSize)
  {
    FullBatchesCount(st.committed);
    assert forall i :: 0 <= i < |st.committed| ==> st.committed[i] in st.committed;
    if |st.pending| > 0 {
      FlattenAppend(st.committed, st.pending);
      CeilSplit(|st.committed|, |st.pending|);
    } else {
      CeilSplit(|st.committed|, 0);
    }
  }

  /** The same, for `insert_into_db` on records that all map: the rows arrive in order in
      full batches of 50 and a last partial one, and every row's key is in the table. */
  lemma AllAcceptedIngest(records: seq<Json>, db: Db, keyCols: seq<Column>, store: Store)
    requires db.connects && forall j :: db.accepts(j)
    requires AllMapped(Mapped(records))
    ensures var r := InsertIntoDb(records, db, keyCols, store);
            && !r.aborted
            && Flatten(r.committed) == Values(Mapped(records))
            && |r.committed| == (|records| + BatchSize - 1) / BatchSize
            && forall i :: 0 <= i < |records| ==> KeyOf(Values(Mapped(records))[i], keyCols) in r.store
  {
    var rows := Mapped(records);
    AllAcceptedPartition(rows, db);
    var r := InsertIntoDb(records, db, keyCols, store);
    var (st, aborted) := Batches(rows, db);
    assert r.sent == st.sent && r.aborted == aborted;
    AllAcceptedCommitsAll(r.sent, db);
    assert r.committed == st.committed;
    CommittedRowsStored(records, db, keyCols, store);
  }

  /** Every row of every committed batch has its key in the table afterwards. */
  lemma CommittedRowsStored(records: seq<Json>, db: Db, keyCols: seq<Column>, store: Store)
    ensures var r := InsertIntoDb(records, db, keyCols, store);
            forall i :: 0 <= i < |Flatten(r.committed)| ==> KeyOf(Flatten(r.committed)[i], keyCols) in r.store
  {
    var r := InsertIntoDb(records, db, keyCols, store);
    forall i | 0 <= i < |Flatten(r.committed)| ensures KeyOf(Flatten(r.committed)[i], keyCols) in r.store {
      var (j, m) := FlattenLocate(r.committed, i);
      assert KeyOf(r.committed[j][m], keyCols) in CommittedKeys(keyCols, r.committed);
    }
  }

  /** The loop invariant of the carry-over: every batch sent inside the loop holds at least
      50 records, after a failed call the records it sent are still waiting, and fewer than
      50 records wait unless the last call failed. */
  ghost predicate Carried(st: Ingest, db: Db)
  {
    && (forall j :: 0 <= j < |st.sent| ==> |st.sent[j]| >= BatchSize)
    && (|st.sent| > 0 && !db.accepts(|st.sent| - 1) ==> st.pending == st.sent[|st.sent| - 1])
    && (|st.pending| < BatchSize || (|st.sent| > 0 && !db.accepts(|st.sent| - 1)))
    && Retries(st.sent, db)
  }

  /** After every failed call, the next call sends the same records again, with at most one
      more appended. */
  ghost predicate Retries(sent: seq<seq<McxRow>>, db: Db)
  {
    forall j :: 0 <= j < |sent| - 1 && !db.accepts(j) ==> RetriedBy(sent[j], sent[j + 1])
  }

  ghost predicate RetriedBy(failed: seq<McxRow>, next: seq<McxRow>)
  {
    |failed| <= |next| <= |failed| + 1 && next[..|failed|] == failed
  }

  /** Appending a call keeps `Retries` when the previous call, if it failed, is retried. */
  lemma RetriesAppend(sent: seq<seq<McxRow>>, db: Db, b: seq<McxRow>)
    requires Retries(sent, db)
    requires |sent| > 0 && !db.accepts(|sent| - 1) ==> RetriedBy(sent[|sent| - 1], b)
    ensures Retries(sent + [b], db)
  {
    var s := sent + [b];
    forall j | 0 <= j < |s| - 1 && !db.accepts(j) ensures RetriedBy(s[j], s[j + 1]) {
      if j < |sent| - 1 {
        assert s[j] == sent[j] && s[j + 1] == sent[j + 1];
      }
    }
  }

  lemma PushCarries(st: Ingest, row: McxRow, db: Db)
    requires Carried(st, db)
    ensures Carried(Push(st, row, db), db)
  {
    var grown := st.pending + [row];
    if |grown| >= BatchSize {
      if |st.sent| > 0 && !db.accepts(|st.sent| - 1) {
        assert grown[..|st.pending|] == st.pending;
      }
      RetriesAppend(st.sent, db, grown);
    }
  }

  lemma {:induction false} LoopCarries(rows: seq<Option<McxRow>>, st: Ingest, db: Db)
    requires Carried(st, db)
    ensures Carried(Loop(rows, st, db).0, db)
    decreases |rows|
  {
    if |rows| > 0 && rows[0].Some? {
      PushCarries(st, rows[0].value, db);
      LoopCarries(rows[1..], Push(st, rows[0].value, db), db);
    }
  }

  /** A batch whose `executemany` fails is not dropped: the next call sends the same
      records again, with at most one more record appended (none when it is the final
      flush). */
  lemma FailedBatchCarriedOver(rows: seq<Option<McxRow>>, db: Db)
    ensures Retries(Batches(rows, db).0.sent, db)
  {
    var start := Ingest([], [], []);
    LoopCarries(rows, start, db);
    var (st, aborted) := Loop(rows, start, db);
    if !aborted && |st.pending| > 0 {
      if |st.sent| > 0 && !db.accepts(|st.sent| - 1) {
        assert st.pending[..|st.sent[|st.sent| - 1]|] == st.pending;
      }
      RetriesAppend(st.sent, db, st.pending);
    }
  }

  /** The sent batches whose call succeeded, in order. */
  function AcceptedBatches(sent: seq<seq<McxRow>>, db: Db): (r: seq<seq<McxRow>>)
    ensures |r| <= |sent|
    decreases |sent|
  {
    if |sent| == 0 then []
    else
      var n := |sent| - 1;
      AcceptedBatches(sent[..n], db) + (if db.accepts(n) then [sent[n]] else [])
  }

  lemma {:induction false} AllAcceptedCommitsAll(sent: seq<seq<McxRow>>, db: Db)
    requires forall j :: db.accepts(j)
    ensures AcceptedBatches(sent, db) == sent
    decreases |sent|
  {
    if |sent| > 0 {
      AllAcceptedCommitsAll(sent[..|sent| - 1], db);
      assert sent[..|sent| - 1] + [sent[|sent| - 1]] == sent;
    }
  }

  lemma SendCommitsAccepted(st: Ingest, db: Db)
    requires st.committed == AcceptedBatches(st.sent, db)
    ensures Send(st, db).committed == AcceptedBatches(Send(st, db).sent, db)
  {
    assert (st.sent + [st.pending])[..|st.sent|] == st.sent;
  }

  lemma {:induction false} LoopCommitsAccepted(rows: seq<Option<McxRow>>, st: Ingest, db: Db)
    requires st.committed == AcceptedBatches(st.sent, db)
    ensures Loop(rows, st, db).0.committed == AcceptedBatches(Loop(rows, st, db).0.sent, db)
    decreases |rows|
  {
    if |rows| > 0 && rows[0].Some? {
      var row := rows[0].value;
      SendCommitsAccepted(st.(pending := st.pending + [row]), db);
      LoopCommitsAccepted(rows[1..], Push(st, row, db), db);
    }
  }

  lemma CommitsAreAccepted(rows: seq<Option<McxRow>>, db: Db)
    ensures Batches(rows, db).0.committed == AcceptedBatches(Batches(rows, db).0.sent, db)
  {
    var start := Ingest([], [], []);
    LoopCommitsAccepted(rows, start, db);
    var (st, aborted) := Loop(rows, start, db);
    if !aborted && |st.pending| > 0 {
      SendCommitsAccepted(st, db);
    }
  }

  lemma {:induction false} LoopStopsAtBadRecord(rows: seq<Option<McxRow>>, st: Ingest, db: Db, k: nat, done: seq<McxRow>)
    requires forall j :: db.accepts(j)
    requires k < |rows| && rows[k].None? && AllMapped(rows[..k])
    requires Chunked(st, done)
    ensures Loop(rows, st, db).1 && Chunked(Loop(rows, st, db).0, done + Values(rows[..k]))
    decreases |rows|
  {
    if k == 0 {
      assert done + Values(rows[..k]) == done;
    } else {
      assert rows[..k][0] == rows[0];
      var row := rows[0].value;
      PushChunked(st, row, db, done);
      assert rows[1..][..k - 1] == rows[..k][1..];
      assert Values(rows[1..][..k - 1]) == Values(rows[..k])[1..];
      LoopStopsAtBadRecord(rows[1..], Push(st, row, db), db, k - 1, done + [row]);
      assert done + [row] + Values(rows[1..][..k - 1]) == done + Values(rows[..k]);
    }
  }

  lemma DivSplit(q: nat, r: nat)
    requires r < BatchSize
    ensures (BatchSize * q + r) / BatchSize == q
  {
  }

  /** A record that cannot be mapped stops the loop: with every call succeeding, what was
      committed is the rows before it rounded down to whole batches of 50, and the records
      gathered since the last commit are lost. */
  lemma BadRecordStops(rows: seq<Option<McxRow>>, db: Db, k: nat)
    requires forall j :: db.accepts(j)
    requires k < |rows| && rows[k].None? && AllMapped(rows[..k])
    ensures var (st, aborted) := Batches(rows, db);
            && aborted
            && |Flatten(st.committed)| == BatchSize * (k / BatchSize)
            && Flatten(st.committed) == Values(rows[..k])[..BatchSize * (k / BatchSize)]
  {
    var start := Ingest([], [], []);
    assert Chunked(start, []);
    LoopStopsAtBadRecord(rows, start, db, k, []);
    assert [] + Values(rows[..k]) == Values(rows[..k]);
    var st := Loop(rows, start, db).0;
    assert Batches(rows, db) == (st, true);
    var vs := Values(rows[..k]);
    assert Flatten(st.committed) + st.pending == vs;
    FullBatchesCount(st.committed);
    var c := |st.committed|;
    assert k == BatchSize * c + |st.pending|;
    DivSplit(c, |st.pending|);
    assert vs[..BatchSize * c] == Flatten(st.committed);
  }
}
