/** The two JSON views over the `BhavCopy` table (bhavcopy_app/views.py): `get_data` lists
    the business dates present with their record counts, newest first, ten to a page;
    `reload_date` runs the NSE reload for a date unless the table already has it. */
module Views {
  import opened Basics
  import opened Dates
  import BhavStore
  import Reload
  import Download

  // ---------------------------------------------------------------------------------------
  // The per-date summary.

  /** The two columns of a `BhavCopy` row the views read. */
  datatype Entry = Entry(bizDt: Date, instrumentId: Option<int>)

  /** One line of `values('BizDt').annotate(RecordCount=Count('FinInstrmId'))`. */
  datatype Group = Group(date: Date, count: nat)

  /** `a` is a later date than `b`. */
  predicate Later(a: Date, b: Date)
  {
    a.year > b.year || (a.year == b.year && (a.month > b.month || (a.month == b.month && a.day > b.day)))
  }

  lemma LaterTotal(a: Date, b: Date)
    ensures a == b || Later(a, b) || Later(b, a)
    ensures !(Later(a, b) && Later(b, a))
  {
  }

  /** `order_by('-BizDt')` on grouped lines: newest first, each date once. */
  predicate Descending(gs: seq<Group>)
  {
    forall i, j :: 0 <= i < j < |gs| ==> Later(gs[i].date, gs[j].date)
  }

  /** `Count` counts the rows whose column is not NULL. */
  function Counted(e: Entry): nat
  {
    if e.instrumentId.Some? then 1 else 0
  }

  /** The reference count: rows on `date` with a non-NULL instrument id. */
  function CountFor(rows: seq<Entry>, date: Date): nat
    decreases |rows|
  {
    if |rows| == 0 then 0
    else
      var n := |rows| - 1;
      CountFor(rows[..n], date) + (if rows[n].bizDt == date then Counted(rows[n]) else 0)
  }

  /** The count on the line for `date`, 0 when there is none. */
  function CountOn(gs: seq<Group>, date: Date): nat
    decreases |gs|
  {
    if |gs| == 0 then 0 else if gs[0].date == date then gs[0].count else CountOn(gs[1..], date)
  }

  function LineDates(gs: seq<Group>): set<Date>
  {
    set i | 0 <= i < |gs| :: gs[i].date
  }

  function RowDates(rows: seq<Entry>): set<Date>
  {
    set i | 0 <= i < |rows| :: rows[i].bizDt
  }

  lemma LineDatesCons(gs: seq<Group>)
    requires |gs| > 0
    ensures LineDates(gs) == {gs[0].date} + LineDates(gs[1..])
  {
    forall x | x in LineDates(gs) ensures x in {gs[0].date} + LineDates(gs[1..]) {
      var i :| 0 <= i < |gs| && gs[i].date == x;
      if i > 0 { assert gs[1..][i - 1] == gs[i]; }
    }
    forall x | x in LineDates(gs[1..]) ensures x in LineDates(gs) {
      var i :| 0 <= i < |gs[1..]| && gs[1..][i].date == x;
      assert gs[i + 1].date == x;
    }
  }

  /** Behind the head of a newest-first list come only earlier dates, newest first. */
  lemma DescendingTail(gs: seq<Group>)
    requires Descending(gs) && |gs| > 0
    ensures Descending(gs[1..])
    ensures forall x :: x in LineDates(gs[1..]) ==> Later(gs[0].date, x)
  {
    forall i, j | 0 <= i < j < |gs[1..]| ensures Later(gs[1..][i].date, gs[1..][j].date) {
      assert gs[1..][i] == gs[i + 1] && gs[1..][j] == gs[j + 1];
    }
    forall x | x in LineDates(gs[1..]) ensures Later(gs[0].date, x) {
      var i :| 0 <= i < |gs[1..]| && gs[1..][i].date == x;
      assert gs[i + 1].date == x;
    }
  }

  /** A head later than every date after it, over a newest-first tail, gives a newest-first
      list. */
  lemma ConsDescending(r: seq<Group>)
    requires |r| > 0 && Descending(r[1..])
    requires forall x :: x in LineDates(r[1..]) ==> Later(r[0].date, x)
    ensures Descending(r)
  {
    forall i, j | 0 <= i < j < |r| ensures Later(r[i].date, r[j].date) {
      assert r[j] == r[1..][j - 1];
      if i > 0 {
        assert r[i] == r[1..][i - 1];
      } else {
        assert r[1..][j - 1].date in LineDates(r[1..]);
      }
    }
  }

  lemma LaterTransitive(a: Date, b: Date, c: Date)
    requires Later(a, b) && Later(b, c)
    ensures Later(a, c)
  {
  }

  lemma {:induction false} CountOnAbsent(gs: seq<Group>, d: Date)
    requires d !in LineDates(gs)
    ensures CountOn(gs, d) == 0
    decreases |gs|
  {
    if |gs| > 0 {
      LineDatesCons(gs);
      CountOnAbsent(gs[1..], d);
    }
  }

  /** Adds one row to newest-first lines: its date's line grows, or a new line goes where
      the order puts it. */
  function AddRow(gs: seq<Group>, e: Entry): (r: seq<Group>)
    requires Descending(gs)
    ensures Descending(r)
    ensures LineDates(r) == LineDates(gs) + {e.bizDt}
    ensures forall d :: CountOn(r, d) == CountOn(gs, d) + (if d == e.bizDt then Counted(e) else 0)
    decreases |gs|
  {
    if |gs| == 0 then
      var r := [Group(e.bizDt, Counted(e))];
      LineDatesCons(r);
      r
    else if gs[0].date == e.bizDt then
      var r := [gs[0].(count := gs[0].count + Counted(e))] + gs[1..];
      assert r[1..] == gs[1..];
      LineDatesCons(gs);
      LineDatesCons(r);
      DescendingTail(gs);
      ConsDescending(r);
      r
    else if Later(e.bizDt, gs[0].date) then
      var r := [Group(e.bizDt, Counted(e))] + gs;
      assert r[1..] == gs;
      LineDatesCons(gs);
      LineDatesCons(r);
      DescendingTail(gs);
      forall x | x in LineDates(gs) ensures Later(e.bizDt, x) {
        if x != gs[0].date { LaterTransitive(e.bizDt, gs[0].date, x); }
      }
      CountOnAbsent(gs, e.bizDt);
      ConsDescending(r);
      r
    else
      LaterTotal(e.bizDt, gs[0].date);
      DescendingTail(gs);
      var tail := AddRow(gs[1..], e);
      var r := [gs[0]] + tail;
      assert r[1..] == tail;
      LineDatesCons(gs);
      LineDatesCons(r);
      ConsDescending(r);
      r
  }

  /** `values('BizDt').annotate(...).order_by('-BizDt')` over the table's rows. */
  function GroupByDate(rows: seq<Entry>): (gs: seq<Group>)
    ensures Descending(gs)
    decreases |rows|
  {
    if |rows| == 0 then [] else AddRow(GroupByDate(rows[..|rows| - 1]), rows[|rows| - 1])
  }

  lemma RowDatesSnoc(rows: seq<Entry>)
    requires |rows| > 0
    ensures RowDates(rows) == RowDates(rows[..|rows| - 1]) + {rows[|rows| - 1].bizDt}
  {
    var n := |rows| - 1;
    forall d | d in RowDates(rows) ensures d in RowDates(rows[..n]) + {rows[n].bizDt} {
      var i :| 0 <= i < |rows| && rows[i].bizDt == d;
      if i < n { assert rows[..n][i] == rows[i]; }
    }
    forall d | d in RowDates(rows[..n]) ensures d in RowDates(rows) {
      var i :| 0 <= i < n && rows[..n][i].bizDt == d;
      assert rows[i].bizDt == d;
    }
  }

  /** The summary has one line per date present, newest first, and each line's count is
      the number of that date's rows whose `FinInstrmId` is not NULL. */
  lemma {:induction false} GroupByDateCounts(rows: seq<Entry>)
    ensures LineDates(GroupByDate(rows)) == RowDates(rows)
    ensures forall d :: CountOn(GroupByDate(rows), d) == CountFor(rows, d)
    decreases |rows|
  {
    if |rows| > 0 {
      GroupByDateCounts(rows[..|rows| - 1]);
      RowDatesSnoc(rows);
    }
  }

  /** In a newest-first list, the count for a line's date is that line's count. */
  lemma {:induction false} LineCount(gs: seq<Group>, k: nat)
    requires Descending(gs) && k < |gs|
    ensures CountOn(gs, gs[k].date) == gs[k].count
    decreases k
  {
    if k > 0 {
      DescendingTail(gs);
      assert gs[1..][k - 1] == gs[k];
      LineCount(gs[1..], k - 1);
    }
  }

  /** `queryset.filter(BizDt=date_filter)` when a filter is given. */
  function Filtered(gs: seq<Group>, filter: Option<Date>): (r: seq<Group>)
    ensures filter.None? ==> r == gs
    ensures filter.Some? ==> forall i :: 0 <= i < |r| ==> r[i].date == filter.value
    decreases |gs|
  {
    if filter.None? || |gs| == 0 then (if filter.None? then gs else [])
    else (if gs[0].date == filter.value then [gs[0]] else []) + Filtered(gs[1..], filter)
  }

  /** A date filter leaves at most the one line for that date, with that date's count. */
  lemma {:induction false} FilterKeepsOneDate(gs: seq<Group>, d: Date)
    requires Descending(gs)
    ensures |Filtered(gs, Some(d))| <= 1
    ensures |Filtered(gs, Some(d))| == 1 <==> d in LineDates(gs)
    ensures |Filtered(gs, Some(d))| == 1 ==> Filtered(gs, Some(d))[0] == Group(d, CountOn(gs, d))
    decreases |gs|
  {
    if |gs| > 0 {
      DescendingTail(gs);
      FilterKeepsOneDate(gs[1..], d);
      LineDatesCons(gs);
    }
  }

  // ---------------------------------------------------------------------------------------
  // Pagination.

  /** `per_page`. */
  const PerPage: nat := 10

  /** `(total_records + per_page - 1) // per_page`. */
  function TotalPages(n: nat): (t: nat)
    ensures PerPage * t >= n && (t == 0 || PerPage * (t - 1) < n)
  {
    (n + PerPage - 1) / PerPage
  }

  /** `queryset[start:end]` with `start = (page - 1) * per_page`: Django refuses negative
      slice bounds, so a page below 1 is an error. */
  function PageOf<T>(items: seq<T>, page: int): (r: Result<seq<T>, string>)
    ensures r.Err? <==> page < 1
    ensures r.Ok? ==> |r.value| <= PerPage
    ensures r.Ok? ==> forall i :: 0 <= i < |r.value| ==>
              (page - 1) * PerPage + i < |items| && r.value[i] == items[(page - 1) * PerPage + i]
  {
    if page < 1 then Err("Negative indexing is not supported.")
    else
      var start := (page - 1) * PerPage;
      var stop := start + PerPage;
      Ok(items[Min(start, |items|)..Min(stop, |items|)])
  }

  /** A page holds ten lines, or what is left from its first position on, or nothing. */
  lemma PageOfLength<T>(items: seq<T>, page: int)
    requires page >= 1
    ensures |PageOf(items, page).value| ==
              if (page - 1) * PerPage >= |items| then 0 else Min(PerPage, |items| - (page - 1) * PerPage)
  {
  }

  function Min(a: int, b: int): int
  {
    if a < b then a else b
  }

  /** The pages from `page` on, while they hold anything. */
  function PagesFrom<T>(items: seq<T>, page: nat): seq<seq<T>>
    requires page >= 1
    decreases |items| - (page - 1) * PerPage
  {
    if (page - 1) * PerPage >= |items| then [] else [PageOf(items, page).value] + PagesFrom(items, page + 1)
  }

  lemma {:induction false} PagesFromCover<T>(items: seq<T>, page: nat)
    requires page >= 1
    ensures (page - 1) * PerPage <= |items| ==> Flatten(PagesFrom(items, page)) == items[(page - 1) * PerPage..]
    ensures |PagesFrom(items, page)| == if (page - 1) * PerPage >= |items| then 0 else TotalPages(|items|) - (page - 1)
    ensures forall i :: 0 <= i < |PagesFrom(items, page)| ==> 0 < |PagesFrom(items, page)[i]| <= PerPage
    decreases |items| - (page - 1) * PerPage
  {
    if (page - 1) * PerPage < |items| {
      PagesFromCover(items, page + 1);
      var start := (page - 1) * PerPage;
      var stop := Min(start + PerPage, |items|);
      assert PageOf(items, page).value == items[start..stop];
      if start + PerPage <= |items| {
        assert items[start..] == items[start..stop] + items[stop..];
      } else {
        assert items[start..] == items[start..stop];
        assert PagesFrom(items, page + 1) == [];
      }
    }
  }

  /** Pages 1 to `total_pages` are non-empty, hold at most ten lines each, and together
      list every line once, in order. */
  lemma PagesPartition<T>(items: seq<T>)
    ensures Flatten(PagesFrom(items, 1)) == items
    ensures |PagesFrom(items, 1)| == TotalPages(|items|)
    ensures forall i :: 0 <= i < |PagesFrom(items, 1)| ==> 0 < |PagesFrom(items, 1)[i]| <= PerPage
  {
    PagesFromCover(items, 1);
    assert items[0..] == items;
  }

  /** One line of `results`. */
  datatype Line = Line(date: Date, recordCount: nat, status: string)

  const Success := "Success"
  const NotPresent := "Failed/Not Present"

  /** The `Status` field: a date with at least one counted row succeeded. */
  function StatusOf(count: nat): (s: string)
    ensures s == Success <==> count > 0
    ensures s == NotPresent <==> count == 0
  {
    if count > 0 then Success else NotPresent
  }

  /** The JSON `get_data` returns. */
  datatype PageReply = PageReply(results: seq<Line>, currentPage: int, totalPages: nat, hasPrevious: bool, hasNext: bool)

  /** `get_data(request)` with the `page` and `date` parameters already read; an error
      stands for the exception a page below 1 raises. */
  function GetData(rows: seq<Entry>, page: int, filter: Option<Date>): (r: Result<PageReply, string>)
    ensures r.Err? <==> page < 1
    ensures r.Ok? ==> r.value.currentPage == page && |r.value.results| <= PerPage
    ensures r.Ok? ==> forall i :: 0 <= i < |r.value.results| ==>
              r.value.results[i].status == StatusOf(r.value.results[i].recordCount)
  {
    var gs := Filtered(GroupByDate(rows), filter);
    match PageOf(gs, page)
    case Err(e) => Err(e)
    case Ok(slice) =>
      var total := TotalPages(|gs|);
      Ok(PageReply(
        seq(|slice|, i requires 0 <= i < |slice| => Line(slice[i].date, slice[i].count, StatusOf(slice[i].count))),
        page, total, page > 1, page < total))
  }

  /** `has_next` holds exactly when the next page has lines, `has_previous` exactly when
      this is not the first page, and `total_pages` is the number of non-empty pages. */
  lemma NavigationFlags(rows: seq<Entry>, page: int, filter: Option<Date>)
    requires page >= 1
    ensures var r := GetData(rows, page, filter).value;
            var next := GetData(rows, page + 1, filter).value;
            && (r.hasNext <==> |next.results| > 0)
            && (r.hasPrevious <==> page > 1)
            && r.totalPages == |PagesFrom(Filtered(GroupByDate(rows), filter), 1)|
  {
    var gs := Filtered(GroupByDate(rows), filter);
    PagesPartition(gs);
    var t := TotalPages(|gs|);
    if page < t {
      assert PerPage * (t - 1) < |gs|;
      assert PageOf(gs, page + 1).value == gs[page * PerPage..Min(page * PerPage + PerPage, |gs|)];
    } else {
      assert PageOf(gs, page + 1).value == [];
    }
  }

  /** The page's lines are the grouped lines from position `10 * (page - 1)` on. */
  lemma PageLines(rows: seq<Entry>, page: int, filter: Option<Date>)
    requires page >= 1
    ensures var gs := Filtered(GroupByDate(rows), filter);
            var res := GetData(rows, page, filter).value.results;
            forall i :: 0 <= i < |res| ==>
              (page - 1) * PerPage + i < |gs|
              && res[i].date == gs[(page - 1) * PerPage + i].date
              && res[i].recordCount == gs[(page - 1) * PerPage + i].count
  {
  }

  /** Every listed line is a date present in the table with its count of rows whose
      `FinInstrmId` is not NULL, and the page lists dates newest first; a date filter lists
      at most that date. */
  lemma PageListsCounts(rows: seq<Entry>, page: int, filter: Option<Date>)
    requires page >= 1
    ensures var res := GetData(rows, page, filter).value.results;
            && (forall i :: 0 <= i < |res| ==> res[i].date in RowDates(rows) && res[i].recordCount == CountFor(rows, res[i].date))
            && (forall i, j :: 0 <= i < j < |res| ==> Later(res[i].date, res[j].date))
            && (filter.Some? ==> |res| <= 1 && forall i :: 0 <= i < |res| ==> res[i].date == filter.value)
  {
    PageLinesCounted(rows, page, filter);
    PageNewestFirst(rows, page, filter);
    if filter.Some? {
      PageFilterOneDate(rows, page, filter);
    }
  }

  lemma PageLinesCounted(rows: seq<Entry>, page: int, filter: Option<Date>)
    requires page >= 1
    ensures var res := GetData(rows, page, filter).value.results;
            forall i :: 0 <= i < |res| ==> res[i].date in RowDates(rows) && res[i].recordCount == CountFor(rows, res[i].date)
  {
    var res := GetData(rows, page, filter).value.results;
    PageLines(rows, page, filter);
    forall i | 0 <= i < |res|
      ensures res[i].date in RowDates(rows) && res[i].recordCount == CountFor(rows, res[i].date)
    {
      GroupedLineCounted(rows, filter, (page - 1) * PerPage + i);
    }
  }

  lemma PageNewestFirst(rows: seq<Entry>, page: int, filter: Option<Date>)
    requires page >= 1
    ensures var res := GetData(rows, page, filter).value.results;
            forall i, j :: 0 <= i < j < |res| ==> Later(res[i].date, res[j].date)
  {
    var res := GetData(rows, page, filter).value.results;
    var gs := Filtered(GroupByDate(rows), filter);
    var start := (page - 1) * PerPage;
    PageLines(rows, page, filter);
    if filter.Some? {
      FilterKeepsOneDate(GroupByDate(rows), filter.value);
    } else {
      forall i, j | 0 <= i < j < |res| ensures Later(res[i].date, res[j].date) {
        assert Later(gs[start + i].date, gs[start + j].date);
      }
    }
  }

  lemma PageFilterOneDate(rows: seq<Entry>, page: int, filter: Option<Date>)
    requires page >= 1 && filter.Some?
    ensures var res := GetData(rows, page, filter).value.results;
            |res| <= 1 && forall i :: 0 <= i < |res| ==> res[i].date == filter.value
  {
    PageLines(rows, page, filter);
    FilterKeepsOneDate(GroupByDate(rows), filter.value);
  }

  /** Every grouped line, filtered or not, is a date of the table with its count. */
  lemma GroupedLineCounted(rows: seq<Entry>, filter: Option<Date>, k: nat)
    requires k < |Filtered(GroupByDate(rows), filter)|
    ensures var g := Filtered(GroupByDate(rows), filter)[k];
            g.date in RowDates(rows) && g.count == CountFor(rows, g.date)
  {
    var all := GroupByDate(rows);
    GroupByDateCounts(rows);
    if filter.Some? {
      FilterKeepsOneDate(all, filter.value);
    } else {
      LineCount(all, k);
    }
  }

  // ---------------------------------------------------------------------------------------
  // `reload_date`.

  /** The JSON `reload_date` returns: `{"success": True, "message": ...}` or
      `{"success": False, "error": ...}`. */
  datatype ViewReply = Done(message: string) | Refused(error: string)

  /** The reply and, when the reload ran, what it did. */
  datatype ReloadView = ReloadView(reply: ViewReply, run: Option<Reload.ReloadRun>, store: BhavStore.Store)

  const ReloadFailedMessage := "Failed to reload data from NSE."

  function AlreadyExists(date: string): string { "Data for " + date + " already exists!" }
  function ReloadedMessage(date: string): string { "Data for " + date + " reloaded successfully!" }

  /** Whether the table has a row on `date`: `BhavCopy.objects.filter(BizDt=date).exists()`. */
  predicate HasDate(rows: seq<Entry>, date: Date)
  {
    exists i :: 0 <= i < |rows| && rows[i].bizDt == date
  }

  /** `reload_date(request, date)` as written: `success` is the dict the reload returns, and
      any dict is true, so every reload that runs is reported as a success. `queryDate` is
      the ORM's reading of the URL's date, or the text of the validation error its filter
      raises, which the view catches and replies with. `rows` and `store` are the same table
      seen by the view and by the reload. */
  function ReloadDateAsWritten(date: string, queryDate: Result<Date, string>, rows: seq<Entry>,
                               env: Reload.Env, keyCols: seq<nat>, store: BhavStore.Store): (r: ReloadView)
    requires |env.attempts| == Download.MaxRetries && BhavStore.ValidKey(keyCols) && BhavStore.Consistent(store, keyCols)
    ensures r.run.None? ==> r.store == store
    ensures r.run.Some? ==> r.store == r.run.value.store && r.run.value == Reload.ReloadForDate(date, "CM", "NSE", env, keyCols, store)
    ensures queryDate.Err? ==> r.run.None? && r.reply == Refused(queryDate.error)
    ensures queryDate.Ok? && HasDate(rows, queryDate.value) ==> r.run.None? && r.reply == Done(AlreadyExists(date))
    ensures queryDate.Ok? && !HasDate(rows, queryDate.value) ==> r.run.Some? && r.reply == Done(ReloadedMessage(date))
  {
    match queryDate
    case Err(e) => ReloadView(Refused(e), None, store)
    case Ok(d) =>
      if HasDate(rows, d) then ReloadView(Done(AlreadyExists(date)), None, store)
      else
        var run := Reload.ReloadForDate(date, "CM", "NSE", env, keyCols, store);
        ReloadView(Done(ReloadedMessage(date)), Some(run), run.store)
  }

  /** The discrepancy: a date not yet in the table whose reload fails (its session request
      raised, say, or the archive is not on the server) is still reported as reloaded
      successfully, and the failure branch is never taken. */
  lemma AsWrittenReportsFailedReloadAsSuccess(date: string, queryDate: Result<Date, string>, rows: seq<Entry>,
                                             env: Reload.Env, keyCols: seq<nat>, store: BhavStore.Store)
    requires |env.attempts| == Download.MaxRetries && BhavStore.ValidKey(keyCols) && BhavStore.Consistent(store, keyCols)
    requires queryDate.Ok? && !HasDate(rows, queryDate.value)
    requires Reload.ReloadForDate(date, "CM", "NSE", env, keyCols, store).reply.Failed?
    ensures ReloadDateAsWritten(date, queryDate, rows, env, keyCols, store).reply == Done(ReloadedMessage(date))
    ensures ReloadDateAsWritten(date, queryDate, rows, env, keyCols, store).reply != Refused(ReloadFailedMessage)
  {
  }

  /** `reload_date` as evidently intended: the reload's `success` flag decides the reply. */
  function ReloadDate(date: string, queryDate: Result<Date, string>, rows: seq<Entry>,
                      env: Reload.Env, keyCols: seq<nat>, store: BhavStore.Store): (r: ReloadView)
    requires |env.attempts| == Download.MaxRetries && BhavStore.ValidKey(keyCols) && BhavStore.Consistent(store, keyCols)
    ensures r.run.None? ==> r.store == store
    ensures r.run.Some? ==> r.store == r.run.value.store && r.run.value == Reload.ReloadForDate(date, "CM", "NSE", env, keyCols, store)
  {
    match queryDate
    case Err(e) => ReloadView(Refused(e), None, store)
    case Ok(d) =>
      if HasDate(rows, d) then ReloadView(Done(AlreadyExists(date)), None, store)
      else
        var run := Reload.ReloadForDate(date, "CM", "NSE", env, keyCols, store);
        if run.reply.Reloaded? then ReloadView(Done(ReloadedMessage(date)), Some(run), run.store)
        else ReloadView(Refused(ReloadFailedMessage), Some(run), run.store)
  }

  /** The view reports success exactly when the date was already present or the reload
      succeeded; a present date is never reloaded and is reported as present, a rejected
      date is answered with the validation error, and a failed reload leaves the table as
      it was. */
  lemma ReloadDateReportsOutcome(date: string, queryDate: Result<Date, string>, rows: seq<Entry>,
                                 env: Reload.Env, keyCols: seq<nat>, store: BhavStore.Store)
    requires |env.attempts| == Download.MaxRetries && BhavStore.ValidKey(keyCols) && BhavStore.Consistent(store, keyCols)
    ensures var r := ReloadDate(date, queryDate, rows, env, keyCols, store);
            && (r.reply.Done? <==>
                 queryDate.Ok? && (HasDate(rows, queryDate.value)
                                   || Reload.ReloadForDate(date, "CM", "NSE", env, keyCols, store).reply.Reloaded?))
            && (queryDate.Ok? && HasDate(rows, queryDate.value) ==>
                  r.run.None? && r.store == store && r.reply == Done(AlreadyExists(date)))
            && (queryDate.Ok? && !HasDate(rows, queryDate.value) ==>
                  r.run.Some? && (r.reply == Done(ReloadedMessage(date)) <==> r.run.value.reply.Reloaded?))
            && (queryDate.Err? ==> r.run.None? && r.store == store && r.reply == Refused(queryDate.error))
            && (r.reply == Refused(ReloadFailedMessage) ==> r.store == store)
  {
  }
}
