/** `reload_data_for_date_mcx` (bhavcopy_app/reload_script.py:264-278): parse the ISO date,
    render it as `YYYYMMDD` and run the MCX download for all instruments. */
module ReloadMcx {
  import opened Basics
  import opened Dates
  import opened McxIngest
  import opened Json
  import opened Mcx
  import Reload

  /** `instrument_name`'s default. */
  const AllInstruments := "ALL"

  datatype McxReload = McxReload(reply: Reload.Reply, run: Option<McxRun>, store: Store)

  /** `reload_data_for_date_mcx(date_str)`. */
  function ReloadForDateMcx(dateStr: string, env: McxEnv, keyCols: seq<Column>, store: Store): (r: McxReload)
    ensures r.run.None? ==> r.store == store
    ensures r.run.Some? ==> r.store == r.run.value.store
  {
    match ParseIso(dateStr)
    case None => McxReload(Reload.Failed(Reload.DateError), None, store)
    case Some(d) =>
      var run := GetBhavcopyData(FormatCompact(d), AllInstruments, env, keyCols, store);
      McxReload(Reload.Reloaded(FormatCompact(d)), Some(run), run.store)
  }

  /** The reply is a success exactly when the date parses, whatever the download and the
      database did: `get_bhavcopy_data` reports its failures instead of raising them. */
  lemma McxSuccessIffDateParses(dateStr: string, env: McxEnv, keyCols: seq<Column>, store: Store)
    ensures var r := ReloadForDateMcx(dateStr, env, keyCols, store);
            && (r.reply.Reloaded? <==> ParseIso(dateStr).Some?)
            && (r.reply.Reloaded? ==> r.run.Some? && r.reply.formatted == FormatCompact(ParseIso(dateStr).value))
            && (r.reply.Failed? ==> r.run.None? && r.store == store)
  {
  }

  /** The request posts the date as `YYYYMMDD` for all instruments; different dates post
      different bodies. */
  lemma McxPostsCompactDate(dateStr: string, env: McxEnv, keyCols: seq<Column>, store: Store)
    requires Usable(env.homepage) && ParseIso(dateStr).Some?
    ensures var r := ReloadForDateMcx(dateStr, env, keyCols, store);
            var body := r.run.value.request.value.payload;
            && Member(body, "Date") == Some(JStr(FormatCompact(ParseIso(dateStr).value)))
            && Member(body, "InstrumentName") == Some(JStr(AllInstruments))
  {
  }

  lemma McxDistinctDatesDistinctBodies(a: string, b: string, env: McxEnv, keyCols: seq<Column>, store: Store)
    requires Usable(env.homepage) && ParseIso(a).Some? && ParseIso(b).Some? && ParseIso(a) != ParseIso(b)
    ensures ReloadForDateMcx(a, env, keyCols, store).run.value.request.value.payload
         != ReloadForDateMcx(b, env, keyCols, store).run.value.request.value.payload
  {
    var da, db := ParseIso(a).value, ParseIso(b).value;
    if FormatCompact(da) == FormatCompact(db) {
      CompactInjective(da, db);
    }
    McxPostsCompactDate(a, env, keyCols, store);
    McxPostsCompactDate(b, env, keyCols, store);
  }
}
