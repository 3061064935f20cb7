/** `reload_data_for_date` (bhavcopy_app/reload_script.py:92-246): parse the date, obtain a session,
    pick the archive URL, download it with retries, unpack or save it, locate the CSV,
    clean it and upsert every row, committing once.

    Everything the function does outside the interpreter is an input of the model: the
    exchange's answers to the cookie and archive requests, the files already in the output
    directory, what unzipping a body yields, what `pd.read_csv` returns for the located
    file, Python's `float` on text, and the database's answers. */
module Reload {
  import opened Basics
  import opened Text
  import opened Dates
  import opened Config
  import opened Download
  import opened Frame
  import opened BhavStore

  /** `DATA_DIR`. */
  const DataDir: string := "D:/bhavcopy_data/"

  /** `os.path.join(DATA_DIR, date_str_formatted)`: the directory ends in '/', so the join
      appends the date. */
  function OutputDir(formatted: string): (dir: string)
    ensures |dir| == |DataDir| + |formatted| && dir[|DataDir|..] == formatted
  {
    DataDir + formatted
  }

  /** Different dates unpack into different directories. */
  lemma OutputDirInjective(a: Date, b: Date)
    requires Valid(a) && Valid(b) && a != b
    ensures OutputDir(FormatCompact(a)) != OutputDir(FormatCompact(b))
  {
    if OutputDir(FormatCompact(a)) == OutputDir(FormatCompact(b)) {
      assert FormatCompact(a) == OutputDir(FormatCompact(a))[|DataDir|..];
      CompactInjective(a, b);
    }
  }

  /** The answers `fetch_cookies` gets: the exchange's home page, and for the Bombay
      exchange its market-information page. */
  datatype CookieSite = CookieSite(homepage: Attempt, marketInfo: Attempt)

  /** `fetch_cookies(src)` yields a session (bhavcopy_app/reload_script.py:15-50): for the national
      exchange whenever the home-page request does not raise, whatever its status; for the
      Bombay exchange only when neither request raises and the market-information page
      answers 200; for any other source always, without a request. */
  function FetchCookies(src: string, site: CookieSite): bool
  {
    if src == "NSE" then site.homepage.Answered?
    else if src == "BSE" then
      site.homepage.Answered? && site.marketInfo.Answered? && site.marketInfo.response.status == 200
    else true
  }

  /** The name under which the CSV is looked for in the output directory. */
  function CsvName(sgmt: string, src: string, formatted: string): Option<string>
  {
    if src == "NSE" then Some("BhavCopy_NSE_" + sgmt + "_0_0_0_" + formatted + "_F_0000.csv")
    else if src == "BSE" then Some("BhavCopy_" + src + "_" + sgmt + "_" + formatted + ".csv")
    else None
  }

  /** The name the Bombay-exchange body is saved under. */
  function SavedName(sgmt: string, src: string, formatted: string): string
  {
    "BhavCopy_" + src + "_" + sgmt + "_" + formatted + ".csv"
  }

  /** Everything outside the interpreter that one reload sees. */
  datatype Env = Env(
    site: CookieSite,                         // answers to `fetch_cookies`
    attempts: seq<Attempt>,                   // answers to the three archive requests
    existing: set<string>,                    // files already in the output directory
    unzip: seq<byte> -> Option<set<string>>,  // names `extractall` writes; None: `BadZipFile`
    csv: Option<Table>,                       // `pd.read_csv(csv_file)`; None: it raises
    toFloat: string -> Option<real>,          // Python's `float` on text; None: it raises
    connects: bool,                           // `mysql.connector.connect` succeeds
    outcome: nat -> RowOutcome,               // the database's answer to row i's statement
    commits: bool)                            // `conn.commit()` succeeds

  /** Why a reload failed; each is one of the function's `{"success": False}` returns. */
  datatype Problem =
    | DateError         // `strptime` raised (reported through the catch-all)
    | CookieError       // "Failed to fetch cookies from ..."
    | UrlError          // "No URL defined for Sgmt=..., Src=..."
    | NotOnServer       // the archive request answered 404
    | RetriesExhausted  // the last archive request raised
    | AccessBlocked     // the body holds a block-page marker
    | CorruptZip        // `BadZipFile`
    | CsvMissing        // "No matching CSV file found for ..."
    | Unexpected        // any other exception: CSV reading, cleaning, connecting, committing

  datatype Reply = Reloaded(formatted: string) | Failed(problem: Problem)

  /** What a reload returns and leaves behind: the reply, the table, the archive-download
      events, and the URL the archive requests went to (None when none was chosen). */
  datatype ReloadRun = ReloadRun(reply: Reply, store: Store, trace: seq<Event>, url: Option<string>)

  /** The statements the insert loop runs: one per CSV row, with `NaN` replaced by None. */
  function Statements(rows: seq<seq<Cell>>, outcome: nat -> RowOutcome): (stmts: seq<Statement>)
    ensures |stmts| == |rows|
    ensures forall i :: 0 <= i < |rows| ==> stmts[i].params == ReplaceNaN(rows[i]) && stmts[i].outcome == outcome(i)
  {
    seq(|rows|, i requires 0 <= i < |rows| => Statement(ReplaceNaN(rows[i]), outcome(i)))
  }

  /** From a located CSV file to the database: read, clean, insert row by row, commit. */
  function Ingest(env: Env, keyCols: seq<nat>, store: Store): (r: (Result<(), Problem>, Store))
    requires ValidKey(keyCols) && Consistent(store, keyCols)
    ensures r.0.Err? ==> r.0.error == Unexpected && r.1 == store
    ensures Consistent(r.1, keyCols)
  {
    match env.csv
    case None => (Err(Unexpected), store)
    case Some(t) =>
      if !Rectangular(t) then (Err(Unexpected), store)
      else match CleanData(t, env.toFloat)
        case None => (Err(Unexpected), store)
        case Some(clean) =>
          if !env.connects then (Err(Unexpected), store)
          else
            var written := UpsertAll(store, keyCols, Statements(clean.rows, env.outcome));
            if env.commits then (Ok(()), written) else (Err(Unexpected), store)
  }

  /** `reload_data_for_date(date_str, sgmt, src)` against a table holding `store`. */
  function ReloadForDate(dateStr: string, sgmt: string, src: string, env: Env, keyCols: seq<nat>, store: Store): (r: ReloadRun)
    requires |env.attempts| == MaxRetries
    requires ValidKey(keyCols) && Consistent(store, keyCols)
    ensures r.reply.Failed? ==> r.store == store
    ensures Consistent(r.store, keyCols)
    ensures r.reply.Reloaded? ==>
              ParseIso(dateStr).Some? && r.reply.formatted == FormatCompact(ParseIso(dateStr).value)
    ensures r.url == (if ParseIso(dateStr).Some? && FetchCookies(src, env.site)
                      then FileUrl(sgmt, src, FormatCompact(ParseIso(dateStr).value)) else None)
    ensures r.trace == (if r.url.Some? then DownloadLoop(env.attempts).trace else [])
  {
    match ParseIso(dateStr)
    case None => ReloadRun(Failed(DateError), store, [], None)
    case Some(d) =>
      var formatted := FormatCompact(d);
      if !FetchCookies(src, env.site) then ReloadRun(Failed(CookieError), store, [], None)
      else match FileUrl(sgmt, src, formatted)
        case None => ReloadRun(Failed(UrlError), store, [], None)
        case Some(url) =>
          var loop := DownloadLoop(env.attempts);
          var fail := (p: Problem) => ReloadRun(Failed(p), store, loop.trace, Some(url));
          match loop.exit
          case NotFound => fail(NotOnServer)
          case TimedOut => fail(RetriesExhausted)
          case NoResponse => fail(Unexpected)
          case Downloaded(resp) =>
            if IsBlockPage(resp.content) then fail(AccessBlocked)
            else
              var files :=
                if src == "NSE" then
                  (match env.unzip(resp.content) case None => None case Some(names) => Some(env.existing + names))
                else Some(env.existing + {SavedName(sgmt, src, formatted)});
              match files
              case None => fail(CorruptZip)
              case Some(present) =>
                match CsvName(sgmt, src, formatted)
                case None => fail(Unexpected)
                case Some(name) =>
                  if name !in present then fail(CsvMissing)
                  else
                    var (res, written) := Ingest(env, keyCols, store);
                    match res
                    case Err(p) => fail(p)
                    case Ok(_) => ReloadRun(Reloaded(formatted), written, loop.trace, Some(url))
  }

  // ---------------------------------------------------------------------------------------
  // Properties.

  /** A date that is not a real `YYYY-MM-DD` day fails before any request; a real one is
      rendered `YYYYMMDD` in the URL and in the reply. */
  lemma DateGate(dateStr: string, sgmt: string, src: string, env: Env, keyCols: seq<nat>, store: Store)
    requires |env.attempts| == MaxRetries && ValidKey(keyCols) && Consistent(store, keyCols)
    ensures var r := ReloadForDate(dateStr, sgmt, src, env, keyCols, store);
            r.reply == Failed(DateError) <==> ParseIso(dateStr).None?
    ensures ParseIso(dateStr).None? ==> ReloadForDate(dateStr, sgmt, src, env, keyCols, store).trace == []
  {
  }

  /** The session gate: for the national exchange only a raising home-page request stops
      the reload (a 403 home page still counts as a session); for the Bombay exchange the
      market-information page must answer 200. */
  lemma SessionGate(dateStr: string, sgmt: string, src: string, env: Env, keyCols: seq<nat>, store: Store)
    requires |env.attempts| == MaxRetries && ValidKey(keyCols) && Consistent(store, keyCols)
    requires ParseIso(dateStr).Some?
    ensures var r := ReloadForDate(dateStr, sgmt, src, env, keyCols, store);
            && (src == "NSE" ==> (r.reply == Failed(CookieError) <==> env.site.homepage.NetworkError?))
            && (src == "BSE" ==> (r.reply == Failed(CookieError) <==>
                  !(env.site.homepage.Answered? && env.site.marketInfo.Answered? && env.site.marketInfo.response.status == 200)))
  {
    CookieErrorOnlyAtSession(dateStr, sgmt, src, env, keyCols, store);
  }

  lemma CookieErrorOnlyAtSession(dateStr: string, sgmt: string, src: string, env: Env, keyCols: seq<nat>, store: Store)
    requires |env.attempts| == MaxRetries && ValidKey(keyCols) && Consistent(store, keyCols)
    requires ParseIso(dateStr).Some?
    ensures ReloadForDate(dateStr, sgmt, src, env, keyCols, store).reply == Failed(CookieError) <==> !FetchCookies(src, env.site)
  {
    var r := ReloadForDate(dateStr, sgmt, src, env, keyCols, store);
    if FetchCookies(src, env.site) && r.reply.Failed? {
      var (res, _) := Ingest(env, keyCols, store);
      assert res.Err? ==> res.error == Unexpected;
    }
  }

  /** A segment and source pair outside `BASE_URLS` fails after the session is obtained and
      before any archive request. */
  lemma NoRequestWithoutUrl(dateStr: string, sgmt: string, src: string, env: Env, keyCols: seq<nat>, store: Store)
    requires |env.attempts| == MaxRetries && ValidKey(keyCols) && Consistent(store, keyCols)
    requires ParseIso(dateStr).Some? && FetchCookies(src, env.site)
    requires !(IsSegment(sgmt) && IsSource(src))
    ensures var r := ReloadForDate(dateStr, sgmt, src, env, keyCols, store);
            r.reply == Failed(UrlError) && r.trace == [] && r.store == store
  {
    UrlKeyPresent(sgmt, src);
  }

  /** For a known segment and source, the archive requests go to the template's folder and
      file name with the compact date in place of the field. */
  lemma DownloadsFromTemplate(dateStr: string, sgmt: string, src: string, env: Env, keyCols: seq<nat>, store: Store)
    requires |env.attempts| == MaxRetries && ValidKey(keyCols) && Consistent(store, keyCols)
    requires ParseIso(dateStr).Some? && FetchCookies(src, env.site)
    requires IsSegment(sgmt) && IsSource(src)
    ensures var r := ReloadForDate(dateStr, sgmt, src, env, keyCols, store);
            var date := FormatCompact(ParseIso(dateStr).value);
            r.url == Some(ArchiveFolder(sgmt, src) + "/" + ArchiveStem(sgmt, src) + date + ArchiveTail(src))
  {
    var date := FormatCompact(ParseIso(dateStr).value);
    CompactDatePlain(ParseIso(dateStr).value);
    TemplateFormat(sgmt, src, date);
    UrlKeyPresent(sgmt, src);
  }

  /** Whatever happens, a reload sends at most three archive requests. */
  lemma AtMostThreeRequests(dateStr: string, sgmt: string, src: string, env: Env, keyCols: seq<nat>, store: Store)
    requires |env.attempts| == MaxRetries && ValidKey(keyCols) && Consistent(store, keyCols)
    ensures |Requests(ReloadForDate(dateStr, sgmt, src, env, keyCols, store).trace)| <= MaxRetries
  {
    RequestsIssued(env.attempts);
  }

  /** The block-page check looks at whatever response the loop kept, whatever its status: a
      body holding either marker fails the reload. */
  lemma BlockedBodyFails(dateStr: string, sgmt: string, src: string, env: Env, keyCols: seq<nat>, store: Store)
    requires |env.attempts| == MaxRetries && ValidKey(keyCols) && Consistent(store, keyCols)
    requires ParseIso(dateStr).Some? && FetchCookies(src, env.site) && IsSegment(sgmt) && IsSource(src)
    requires DownloadLoop(env.attempts).exit.Downloaded?
    requires IsBlockPage(DownloadLoop(env.attempts).exit.response.content)
    ensures ReloadForDate(dateStr, sgmt, src, env, keyCols, store).reply == Failed(AccessBlocked)
  {
    UrlKeyPresent(sgmt, src);
  }

  /** A Bombay-exchange reload always finds its CSV: the file it looks for is the one it
      has just saved. */
  lemma BseCsvAlwaysFound(dateStr: string, sgmt: string, env: Env, keyCols: seq<nat>, store: Store)
    requires |env.attempts| == MaxRetries && ValidKey(keyCols) && Consistent(store, keyCols)
    ensures ReloadForDate(dateStr, sgmt, "BSE", env, keyCols, store).reply != Failed(CsvMissing)
  {
  }

  /** A national-exchange reload finds its CSV exactly when the archive unpacked a file of
      that name or one was left there by an earlier run. */
  lemma NseCsvFound(dateStr: string, sgmt: string, env: Env, keyCols: seq<nat>, store: Store)
    requires |env.attempts| == MaxRetries && ValidKey(keyCols) && Consistent(store, keyCols)
    requires ParseIso(dateStr).Some? && FetchCookies("NSE", env.site) && IsSegment(sgmt)
    requires DownloadLoop(env.attempts).exit.Downloaded?
    requires var body := DownloadLoop(env.attempts).exit.response.content;
             !IsBlockPage(body) && env.unzip(body).Some?
    ensures var body := DownloadLoop(env.attempts).exit.response.content;
            var name := CsvName(sgmt, "NSE", FormatCompact(ParseIso(dateStr).value)).value;
            ReloadForDate(dateStr, sgmt, "NSE", env, keyCols, store).reply == Failed(CsvMissing)
            <==> name !in env.existing && name !in env.unzip(body).value
  {
    UrlKeyPresent(sgmt, "NSE");
  }

  /** A compact date is digits only, so it holds no replacement-field brace and no path
      separator. */
  lemma CompactDatePlain(d: Date)
    requires Valid(d)
    ensures '{' !in FormatCompact(d) && '/' !in FormatCompact(d)
  {
    var date := FormatCompact(d);
    forall i | 0 <= i < |date| ensures date[i] != '{' && date[i] != '/' {
      assert IsDigit(date[i]);
    }
  }

  /** The national-exchange CSV looked for is the archive's own file name without `.zip`. */
  lemma NseCsvIsArchiveName(sgmt: string, d: Date)
    requires IsSegment(sgmt) && Valid(d)
    ensures var date := FormatCompact(d);
            FileUrl(sgmt, "NSE", date).Some?
            && LastSegment(FileUrl(sgmt, "NSE", date).value) == CsvName(sgmt, "NSE", date).value + ".zip"
  {
    var date := FormatCompact(d);
    CompactDatePlain(d);
    TemplateFormat(sgmt, "NSE", date);
    var name := ArchiveStem(sgmt, "NSE") + date + ArchiveTail("NSE");
    ArchiveNameParts(sgmt, date);
    assert ArchiveFolder(sgmt, "NSE") + "/" + ArchiveStem(sgmt, "NSE") + date + ArchiveTail("NSE")
           == ArchiveFolder(sgmt, "NSE") + "/" + name;
    LastSegmentAfterSlash(ArchiveFolder(sgmt, "NSE"), name);
  }

  lemma ArchiveNameParts(sgmt: string, date: string)
    requires IsSegment(sgmt) && '/' !in date
    ensures var name := ArchiveStem(sgmt, "NSE") + date + ArchiveTail("NSE");
            name == CsvName(sgmt, "NSE", date).value + ".zip" && '/' !in name
  {
    assert '/' !in ArchiveStem(sgmt, "NSE");
    assert '/' !in ArchiveTail("NSE");
    NotInConcat('/', ArchiveStem(sgmt, "NSE"), date);
    NotInConcat('/', ArchiveStem(sgmt, "NSE") + date, ArchiveTail("NSE"));
  }

  /** All or nothing: a reload that fails, at whatever stage, leaves the table as it was;
      one that succeeds holds exactly the old keys plus those of the rows the database
      accepted. */
  lemma ReloadWrites(dateStr: string, sgmt: string, src: string, env: Env, keyCols: seq<nat>, store: Store)
    requires |env.attempts| == MaxRetries && ValidKey(keyCols) && Consistent(store, keyCols)
    ensures var r := ReloadForDate(dateStr, sgmt, src, env, keyCols, store);
            && (r.reply.Failed? ==> r.store == store)
            && (r.reply.Reloaded? ==>
                  env.csv.Some? && Rectangular(env.csv.value) && CleanData(env.csv.value, env.toFloat).Some?
                  && env.connects && env.commits
                  && r.store == UpsertAll(store, keyCols, Statements(CleanData(env.csv.value, env.toFloat).value.rows, env.outcome))
                  && r.store.Keys == store.Keys
                       + AppliedKeys(keyCols, Statements(CleanData(env.csv.value, env.toFloat).value.rows, env.outcome)))
  {
    var r := ReloadForDate(dateStr, sgmt, src, env, keyCols, store);
    if r.reply.Reloaded? {
      var clean := CleanData(env.csv.value, env.toFloat).value;
      UpsertKeys(store, keyCols, Statements(clean.rows, env.outcome));
    }
  }

  /** A row of the cleaned file whose insert succeeded and that no later successful row
      overrides ends up in the table with its own values, NaN turned into NULL, in every
      column but `FinInstrmId`. */
  lemma ReloadRowWritten(dateStr: string, sgmt: string, src: string, env: Env, keyCols: seq<nat>, store: Store, i: nat)
    requires |env.attempts| == MaxRetries && ValidKey(keyCols) && Consistent(store, keyCols)
    requires ReloadForDate(dateStr, sgmt, src, env, keyCols, store).reply.Reloaded?
    requires env.csv.Some? && Rectangular(env.csv.value) && CleanData(env.csv.value, env.toFloat).Some?
    requires var rows := CleanData(env.csv.value, env.toFloat).value.rows;
             && i < |rows| && Succeeds(Statement(ReplaceNaN(rows[i]), env.outcome(i)), keyCols)
             && forall j :: i < j < |rows| && Succeeds(Statement(ReplaceNaN(rows[j]), env.outcome(j)), keyCols) ==>
                  KeyOf(ReplaceNaN(rows[j]), keyCols) != KeyOf(ReplaceNaN(rows[i]), keyCols)
    ensures var rows := CleanData(env.csv.value, env.toFloat).value.rows;
            var r := ReloadForDate(dateStr, sgmt, src, env, keyCols, store).store;
            var k := KeyOf(ReplaceNaN(rows[i]), keyCols);
            && k in r && |r[k].values| == Arity
            && (forall c :: 0 <= c < Arity && c != KeptColumn ==> r[k].values[c] == ReplaceNaN(rows[i])[c] && !r[k].values[c].NaN?)
            && r[k].updatedAt == env.outcome(i).now
  {
    var rows := CleanData(env.csv.value, env.toFloat).value.rows;
    var stmts := Statements(rows, env.outcome);
    ReloadWrites(dateStr, sgmt, src, env, keyCols, store);
    LastWriteWins(store, keyCols, stmts, i);
  }
}
