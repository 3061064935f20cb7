/** The `BhavCopy` table as `reload_data_for_date` writes it (bhavcopy_app/reload_script.py:182-238): one
    `INSERT ... ON DUPLICATE KEY UPDATE` per CSV row, a row whose statement fails is skipped,
    and the whole batch is committed once at the end.

    The table's unique key is not part of the source (the table is unmanaged, see
    bhavcopy_app/models.py:26-28), so it is the parameter `keyCols`: the positions, among the
    34 inserted columns, that make up the key. The table is a map from key to stored row,
    which is what the unique key guarantees: at most one row per key. */
module BhavStore {
  import opened Basics
  import opened Frame

  /** The inserted columns before `FinInstrmId`. */
  const LeadColumns: seq<string> := ["TradDt", "BizDt", "Sgmt", "Src", "FinInstrmTp"]

  /** The inserted columns after `FinInstrmId`. */
  const TrailColumns: seq<string> := [
    "ISIN", "TckrSymb", "SctySrs", "XpryDt", "FininstrmActlXpryDt", "StrkPric", "OptnTp",
    "FinInstrmNm", "OpnPric", "HghPric", "LwPric", "ClsPric", "LastPric", "PrvsClsgPric",
    "UndrlygPric", "SttlmPric", "OpnIntrst", "ChngInOpnIntrst", "TtlTradgVol",
    "TtlTrfVal", "TtlNbOfTxsExctd", "SsnId", "NewBrdLotQty", "Rmks", "Rsvd1", "Rsvd2", "Rsvd3", "Rsvd4"]

  /** The 34 columns bound by `%s`, in statement order; `created_at` and `updated_at` are
      set by `NOW()` and are not parameters. */
  const InsertColumns: seq<string> := LeadColumns + ["FinInstrmId"] + TrailColumns

  /** The columns the `ON DUPLICATE KEY UPDATE` clause overwrites with the new values, in
      the clause's order. */
  const UpdatedColumns: seq<string> := LeadColumns + TrailColumns

  const Arity: nat := 34

  /** Position of `FinInstrmId`, the one inserted column the update leaves alone. */
  const KeptColumn: nat := 5

  /** The update clause names every inserted column except `FinInstrmId`, in the same order. */
  lemma UpdateClauseColumns()
    ensures |InsertColumns| == Arity && InsertColumns[KeptColumn] == "FinInstrmId"
    ensures UpdatedColumns == InsertColumns[..KeptColumn] + InsertColumns[KeptColumn + 1..]
  {
    assert InsertColumns[..KeptColumn] == LeadColumns;
    assert InsertColumns[KeptColumn + 1..] == TrailColumns;
  }

  /** A stored row: its 34 column values, and its `created_at` and `updated_at` stamps. */
  datatype Stored = Stored(values: seq<Cell>, createdAt: int, updatedAt: int)

  type Store = map<seq<Cell>, Stored>

  /** The database's answer to one statement: it ran, and `NOW()` was `now`; or it raised a
      `mysql.connector.Error` (a type or length error the database reports, say). */
  datatype RowOutcome = Accept(now: int) | Reject

  predicate ValidKey(keyCols: seq<nat>)
  {
    |keyCols| > 0 && forall i :: 0 <= i < |keyCols| ==> keyCols[i] < Arity
  }

  function KeyOf(values: seq<Cell>, keyCols: seq<nat>): (k: seq<Cell>)
    requires ValidKey(keyCols) && |values| == Arity
    ensures |k| == |keyCols|
  {
    seq(|keyCols|, i requires 0 <= i < |keyCols| => values[keyCols[i]])
  }

  /** Every stored row has 34 values and is filed under its own key. */
  predicate Consistent(store: Store, keyCols: seq<nat>)
    requires ValidKey(keyCols)
  {
    forall k :: k in store ==> |store[k].values| == Arity && KeyOf(store[k].values, keyCols) == k
  }

  /** The statement can succeed at all: `tuple(row)` has exactly 34 values (otherwise the
      connector raises), and no key column is None (the key columns are declared NOT NULL,
      bhavcopy_app/models.py:5-12). */
  predicate Bindable(params: seq<Cell>, keyCols: seq<nat>)
    requires ValidKey(keyCols)
  {
    |params| == Arity && forall i :: 0 <= i < |keyCols| ==> !params[keyCols[i]].Null?
  }

  predicate Applied(params: seq<Cell>, keyCols: seq<nat>, outcome: RowOutcome)
    requires ValidKey(keyCols)
  {
    Bindable(params, keyCols) && outcome.Accept?
  }

  /** The row the update clause leaves: every column from the new values except
      `FinInstrmId`, which keeps the stored one. */
  function Merge(stored: seq<Cell>, params: seq<Cell>): (m: seq<Cell>)
    requires |stored| == Arity && |params| == Arity
    ensures |m| == Arity
  {
    params[..KeptColumn] + [stored[KeptColumn]] + params[KeptColumn + 1..]
  }

  /** One `cursor.execute` of the upsert. A statement that fails leaves the table as it was;
      one that succeeds inserts a new row stamped `now` twice, or, when the key is taken,
      overwrites every column but `FinInstrmId`, keeps `created_at` and sets `updated_at`.
      No other row changes, and every row stays filed under its own key. */
  function Execute(store: Store, keyCols: seq<nat>, params: seq<Cell>, outcome: RowOutcome): (r: Store)
    requires ValidKey(keyCols) && Consistent(store, keyCols)
    ensures Consistent(r, keyCols)
    ensures !Applied(params, keyCols, outcome) ==> r == store
    ensures Applied(params, keyCols, outcome) ==>
              var k := KeyOf(params, keyCols);
              && k in r && r.Keys == store.Keys + {k}
              && (forall k' :: k' in store && k' != k ==> r[k'] == store[k'])
              && |r[k].values| == Arity
              && (forall i :: 0 <= i < Arity && i != KeptColumn ==> r[k].values[i] == params[i])
              && r[k].values[KeptColumn] == (if k in store then store[k].values[KeptColumn] else params[KeptColumn])
              && r[k].createdAt == (if k in store then store[k].createdAt else outcome.now)
              && r[k].updatedAt == outcome.now
  {
    if !Applied(params, keyCols, outcome) then store
    else
      var k := KeyOf(params, keyCols);
      if k in store then
        var m := Merge(store[k].values, params);
        assert KeyOf(m, keyCols) == k by {
          forall i | 0 <= i < |keyCols| ensures KeyOf(m, keyCols)[i] == k[i] {
            if keyCols[i] == KeptColumn {
              assert store[k].values[KeptColumn] == KeyOf(store[k].values, keyCols)[i];
            }
          }
        }
        store[k := Stored(m, store[k].createdAt, outcome.now)]
      else
        store[k := Stored(params, outcome.now, outcome.now)]
  }

  /** One iteration of the loop over `df.iterrows()`: the row's 34 parameters and the
      database's answer to its statement. */
  datatype Statement = Statement(params: seq<Cell>, outcome: RowOutcome)

  predicate Succeeds(st: Statement, keyCols: seq<nat>)
    requires ValidKey(keyCols)
  {
    Applied(st.params, keyCols, st.outcome)
  }

  /** The loop over `df.iterrows()`, statement by statement. */
  function UpsertAll(store: Store, keyCols: seq<nat>, stmts: seq<Statement>): (r: Store)
    requires ValidKey(keyCols) && Consistent(store, keyCols)
    ensures Consistent(r, keyCols)
    decreases |stmts|
  {
    if |stmts| == 0 then store
    else
      var n := |stmts| - 1;
      Execute(UpsertAll(store, keyCols, stmts[..n]), keyCols, stmts[n].params, stmts[n].outcome)
  }

  /** The keys of the statements that succeeded. */
  ghost function AppliedKeys(keyCols: seq<nat>, stmts: seq<Statement>): set<seq<Cell>>
    requires ValidKey(keyCols)
  {
    set i | 0 <= i < |stmts| && Succeeds(stmts[i], keyCols) :: KeyOf(stmts[i].params, keyCols)
  }

  /** After the loop the table holds exactly the keys it held before plus the keys of the
      statements that succeeded: failed rows add nothing, and no key is ever removed. */
  lemma {:induction false} UpsertKeys(store: Store, keyCols: seq<nat>, stmts: seq<Statement>)
    requires ValidKey(keyCols) && Consistent(store, keyCols)
    ensures UpsertAll(store, keyCols, stmts).Keys == store.Keys + AppliedKeys(keyCols, stmts)
    decreases |stmts|
  {
    if |stmts| > 0 {
      var n := |stmts| - 1;
      var front := stmts[..n];
      UpsertKeys(store, keyCols, front);
      var before := AppliedKeys(keyCols, front);
      var after := AppliedKeys(keyCols, stmts);
      var last := if Succeeds(stmts[n], keyCols) then {KeyOf(stmts[n].params, keyCols)} else {};
      assert after == before + last by {
        forall k | k in after ensures k in before + last {
          var i :| 0 <= i < |stmts| && Succeeds(stmts[i], keyCols) && k == KeyOf(stmts[i].params, keyCols);
          if i < n { assert front[i] == stmts[i]; }
        }
        forall k | k in before ensures k in after {
          var i :| 0 <= i < n && Succeeds(front[i], keyCols) && k == KeyOf(front[i].params, keyCols);
          assert front[i] == stmts[i];
        }
      }
    }
  }

  /** The last successful statement for a key decides that row's columns: after the loop the
      row carries its values (`FinInstrmId` aside) and its `NOW()` as `updated_at`. */
  lemma {:induction false} LastWriteWins(store: Store, keyCols: seq<nat>, stmts: seq<Statement>, i: nat)
    requires ValidKey(keyCols) && Consistent(store, keyCols)
    requires i < |stmts| && Succeeds(stmts[i], keyCols)
    requires forall j :: i < j < |stmts| && Succeeds(stmts[j], keyCols) ==>
               KeyOf(stmts[j].params, keyCols) != KeyOf(stmts[i].params, keyCols)
    ensures var r := UpsertAll(store, keyCols, stmts);
            var k := KeyOf(stmts[i].params, keyCols);
            && k in r && |r[k].values| == Arity
            && (forall c :: 0 <= c < Arity && c != KeptColumn ==> r[k].values[c] == stmts[i].params[c])
            && r[k].updatedAt == stmts[i].outcome.now
    decreases |stmts|
  {
    var n := |stmts| - 1;
    var front := stmts[..n];
    if i < n {
      assert forall j :: i < j < |front| ==> front[j] == stmts[j];
      LastWriteWins(store, keyCols, front, i);
      assert front[i] == stmts[i];
    }
  }

  /** `FinInstrmId` and `created_at` of a row already in the table never change. */
  lemma {:induction false} ExistingRowKeepsIdentity(store: Store, keyCols: seq<nat>, stmts: seq<Statement>, k: seq<Cell>)
    requires ValidKey(keyCols) && Consistent(store, keyCols) && k in store
    ensures var r := UpsertAll(store, keyCols, stmts);
            && k in r && |r[k].values| == Arity
            && r[k].values[KeptColumn] == store[k].values[KeptColumn]
            && r[k].createdAt == store[k].createdAt
    decreases |stmts|
  {
    if |stmts| > 0 {
      var n := |stmts| - 1;
      ExistingRowKeepsIdentity(store, keyCols, stmts[..n], k);
    }
  }

  /** A failed statement is isolated: the table after the loop is the one the loop would
      have produced had that row not been in the file at all. */
  lemma {:induction false} FailedRowIsIsolated(store: Store, keyCols: seq<nat>, stmts: seq<Statement>, i: nat)
    requires ValidKey(keyCols) && Consistent(store, keyCols)
    requires i < |stmts| && !Succeeds(stmts[i], keyCols)
    ensures UpsertAll(store, keyCols, stmts) == UpsertAll(store, keyCols, stmts[..i] + stmts[i + 1..])
    decreases |stmts|
  {
    var n := |stmts| - 1;
    var without := stmts[..i] + stmts[i + 1..];
    var last := stmts[n];
    if i == n {
      assert without == stmts[..n];
      assert UpsertAll(store, keyCols, stmts)
             == Execute(UpsertAll(store, keyCols, without), keyCols, last.params, last.outcome);
    } else {
      var shorter := stmts[..n];
      FailedRowIsIsolated(store, keyCols, shorter, i);
      assert without[..|without| - 1] == shorter[..i] + shorter[i + 1..];
      assert without[|without| - 1] == last;
      assert UpsertAll(store, keyCols, without)
             == Execute(UpsertAll(store, keyCols, without[..|without| - 1]), keyCols, last.params, last.outcome);
    }
  }
}
