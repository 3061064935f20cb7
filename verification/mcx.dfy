/** `get_bhavcopy_data` (bhavcopy_app/mcxdownloader.py:9-83): fetch the MCX bhavcopy page
    for its cookies, post the date to the bhavcopy endpoint with those cookies in the
    `Cookie` header, and hand the response's `d.Data` records to `insert_into_db`. Every
    failure is caught and reported; the function itself never raises. */
module Mcx {
  import opened Basics
  import opened Text
  import opened Json
  import opened Cookies
  import opened Download
  import opened McxIngest

  /** `response.raise_for_status()` raises for the 4xx and 5xx codes. */
  predicate RaisesForStatus(status: int)
  {
    400 <= status < 600
  }

  /** A request that neither raised nor came back with an error status. */
  predicate Usable(a: Attempt)
  {
    a.Answered? && !RaisesForStatus(a.response.status)
  }

  /** What the two `if` tests make of the decoded response. */
  datatype Payload =
    | NoD                      // not an object, or no "d" member
    | NoData                   // `"Data" in d` is false, or `d["Data"]` is not a list
    | ShapeError               // `"Data" in d` or `d["Data"]` raises a TypeError
    | Records(items: seq<Json>)

  /** `"Data" in d`: a key test on an object, an element test on a list, a substring test
      on a string; None for the values `in` rejects. */
  function HasData(d: Json): (r: Option<bool>)
    ensures d.JObj? ==> r == Some(Lookup(d.members, "Data").Some?)
    ensures (d.JNull? || d.JBool? || d.JNum?) <==> r.None?
  {
    match d
    case JObj(m) => Some(Lookup(m, "Data").Some?)
    case JArr(items) => Some(JStr("Data") in items)
    case JStr(s) => Some(Contains(s, "Data"))
    case _ => None
  }

  /** The records `insert_into_db` receives, or why it is not called. */
  function InsertPayload(resp: Json): (p: Payload)
  {
    match Member(resp, "d")
    case None => NoD
    case Some(d) =>
      match HasData(d)
      case None => ShapeError
      case Some(false) => NoData
      case Some(true) =>
        if !d.JObj? then ShapeError
        else match Lookup(d.members, "Data").value
          case JArr(items) => Records(items)
          case _ => NoData
  }

  /** Only an object whose "d" member is an object whose "Data" member is a list reaches
      the database, and then with exactly that list. */
  lemma InsertPayloadGate(resp: Json, items: seq<Json>)
    ensures InsertPayload(resp) == Records(items) <==>
            (&& resp.JObj? && Lookup(resp.members, "d").Some?
             && var d := Lookup(resp.members, "d").value;
             && d.JObj? && Lookup(d.members, "Data") == Some(JArr(items)))
  {
  }

  /** A "d" that is a list or a string holding "Data" passes the membership test but cannot
      be indexed by a string: the `TypeError` is caught and nothing is inserted. */
  lemma SequenceDIsShapeError(items: seq<Json>)
    ensures InsertPayload(JObj([("d", JArr(items + [JStr("Data")]))])) == ShapeError
    ensures InsertPayload(JObj([("d", JStr("NoData"))])) == ShapeError
  {
    assert JStr("Data") in items + [JStr("Data")];
    assert OccursAt("NoData", "Data", 2);
    ContainsIff("NoData", "Data");
  }

  /** The POST `get_bhavcopy_data` sends: its `Cookie` header and its JSON body. */
  datatype PostRequest = PostRequest(cookie: string, payload: Json)

  /** `json.dumps({"Date": date, "InstrumentName": instrument_name})`, as a value. */
  function RequestBody(date: string, instrument: string): (j: Json)
    ensures Member(j, "Date") == Some(JStr(date))
    ensures Member(j, "InstrumentName") == Some(JStr(instrument))
  {
    var first: seq<(string, Json)> := [("Date", JStr(date))];
    assert "InstrumentName"[0] != "Date"[0];
    LookupAppend(first, "InstrumentName", JStr(instrument), "Date");
    assert Lookup(first, "Date") == Some(JStr(date)) by {
      assert first[..0] == [];
    }
    JObj(first + [("InstrumentName", JStr(instrument))])
  }

  /** The POST built from the session's cookie jar. */
  function MakeRequest(date: string, instrument: string, jar: seq<Pair>): PostRequest
  {
    PostRequest(CookieString(CookieDict(jar)), RequestBody(date, instrument))
  }

  /** What the outside world does: the homepage request, the cookies it leaves in the
      session, the POST, the decoded body (None when it is not JSON), whether writing
      `mcx_response.json` succeeds, and the database. */
  datatype McxEnv = McxEnv(
    homepage: Attempt, jar: seq<Pair>, post: Attempt, decoded: Option<Json>,
    saves: bool, db: Db)

  /** Where the call ended. */
  datatype McxStop =
    | CookieFailure            // "Error fetching cookies"
    | RequestFailure           // "Error during request"
    | DecodeFailure            // the body is not JSON
    | SaveFailure              // writing the response file raised
    | NoDKey                   // "Expected key 'd' not found"
    | NoRecords                // "No data found in JSON response"
    | ShapeFailure             // "Unexpected error" from the `in` test or the indexing
    | Ingested(result: IngestResult)

  datatype McxRun = McxRun(stop: McxStop, request: Option<PostRequest>, store: Store)

  const HomepageUrl := "https://www.mcxindia.com/market-data/bhavcopy"
  const BhavcopyEndpoint := "https://www.mcxindia.com/backpage.aspx/GetDateWiseBhavCopy"

  /** `get_bhavcopy_data(date, instrument_name)`. */
  function GetBhavcopyData(date: string, instrument: string, env: McxEnv, keyCols: seq<Column>, store: Store): (r: McxRun)
    ensures r.stop.CookieFailure? <==> !Usable(env.homepage)
    ensures r.request.Some? <==> Usable(env.homepage)
    ensures r.request.Some? ==> r.request.value == MakeRequest(date, instrument, env.jar)
    ensures !r.stop.Ingested? ==> r.store == store
    ensures r.stop.Ingested? ==> r.store == r.stop.result.store
  {
    if !Usable(env.homepage) then McxRun(CookieFailure, None, store)
    else
      var request := MakeRequest(date, instrument, env.jar);
      if !Usable(env.post) then McxRun(RequestFailure, Some(request), store)
      else if env.decoded.None? then McxRun(DecodeFailure, Some(request), store)
      else if !env.saves then McxRun(SaveFailure, Some(request), store)
      else match InsertPayload(env.decoded.value)
        case NoD => McxRun(NoDKey, Some(request), store)
        case NoData => McxRun(NoRecords, Some(request), store)
        case ShapeError => McxRun(ShapeFailure, Some(request), store)
        case Records(items) =>
          var result := InsertIntoDb(items, env.db, keyCols, store);
          McxRun(Ingested(result), Some(request), result.store)
  }

  /** The table changes only through `insert_into_db`, which runs exactly when both
      requests succeed, the body is JSON and is saved, and its `d.Data` is a list; it is
      then given that list. */
  lemma InsertOnlyThroughGate(date: string, instrument: string, env: McxEnv, keyCols: seq<Column>, store: Store)
    ensures var r := GetBhavcopyData(date, instrument, env, keyCols, store);
            && (r.stop.Ingested? <==>
                 Usable(env.homepage) && Usable(env.post) && env.decoded.Some? && env.saves
                 && InsertPayload(env.decoded.value).Records?)
            && (r.stop.Ingested? ==>
                 r.stop.result == InsertIntoDb(InsertPayload(env.decoded.value).items, env.db, keyCols, store))
  {
  }

  /** The POST carries the session's cookies as one `Cookie` header that reads back as the
      dict `get_dict()` built from the jar (for cookies that render unambiguously), in which
      each name has the value of its last cookie in the jar; and it carries the date and
      instrument as given. */
  lemma PostCarriesCookies(date: string, instrument: string, jar: seq<Pair>)
    requires forall i :: 0 <= i < |CookieDict(jar)| ==> Plain(CookieDict(jar)[i])
    ensures var req := MakeRequest(date, instrument, jar);
            && ParseCookieString(req.cookie) == Some(CookieDict(jar))
            && (forall name :: Get(CookieDict(jar), name) == LastValue(jar, name))
            && Member(req.payload, "Date") == Some(JStr(date))
            && Member(req.payload, "InstrumentName") == Some(JStr(instrument))
  {
    CookieStringRoundTrip(CookieDict(jar));
    forall name ensures Get(CookieDict(jar), name) == LastValue(jar, name) {
      CookieDictValues(jar, name);
    }
  }
}
