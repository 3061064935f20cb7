/** The archive download of `reload_data_for_date` (bhavcopy_app/reload_script.py:119-145): up to three
    GET requests driven by a sequence of attempt outcomes, and the block-page check on the
    response the loop leaves behind.

    The loop, as written:
    - a 200 leaves the loop (`break`);
    - a 403 calls `fetch_cookies` again but stores the new session in an unused local
      (`cookies`), so later requests still go out on the original session, and it does not
      sleep;
    - a 404 returns a not-found failure at once;
    - any other status goes on to the next attempt without sleeping;
    - a network exception sleeps `2 ** attempt` seconds before the next attempt, or, on the
      last attempt, returns a timeout failure.
    When the attempts run out without a `break`, processing continues with the last response
    received. */
module Download {
  import opened Basics
  import opened Text

  /** `max_retries`. */
  const MaxRetries: nat := 3

  datatype Response = Response(status: int, content: seq<byte>)

  /** What one `session.get(file_url, ...)` produced. */
  datatype Attempt = Answered(response: Response) | NetworkError

  /** Observable effects of the loop, in order. */
  datatype Event =
    | Request(attempt: nat, session: nat)   // a GET of the archive on session number `session`
    | RefetchSession                        // the extra `fetch_cookies(src)` after a 403
    | Sleep(seconds: nat)                   // `time.sleep(2 ** attempt)`

  /** How the loop ended. */
  datatype Exit =
    | Downloaded(response: Response)  // left by `break` on a 200, or by running out of attempts
    | NoResponse                      // ran out of attempts with `response` never bound
    | NotFound                        // returned on a 404
    | TimedOut                        // returned on an exception in the last attempt

  /** The loop's locals: the last `response`, the session requests go out on, the unused
      `cookies` local, how many sessions were fetched so far, and the event trace. */
  datatype LoopState = LoopState(
    response: Option<Response>,
    session: nat,
    cookies: Option<nat>,
    sessionsFetched: nat,
    trace: seq<Event>)

  datatype LoopResult = LoopResult(exit: Exit, trace: seq<Event>)

  /** The 403 branch: `cookies = fetch_cookies(src)` obtains a further session, which
      nothing reads afterwards. */
  function Refetched(st: LoopState): (st': LoopState)
    ensures st'.session == st.session && st'.response == st.response
    ensures st'.sessionsFetched == st.sessionsFetched + 1
    ensures st'.trace == st.trace + [RefetchSession]
  {
    var next := st.sessionsFetched + 1;
    st.(cookies := Some(next), sessionsFetched := next, trace := st.trace + [RefetchSession])
  }

  /** The session obtained before the loop. */
  const FirstSession: nat := 0

  function RunLoop(attempts: seq<Attempt>, i: nat, st: LoopState): (LoopResult, LoopState)
    requires |attempts| == MaxRetries && i <= MaxRetries
    decreases MaxRetries - i
  {
    if i == MaxRetries then
      match st.response
      case Some(resp) => (LoopResult(Downloaded(resp), st.trace), st)
      case None => (LoopResult(NoResponse, st.trace), st)
    else
      var st1 := st.(trace := st.trace + [Request(i, st.session)]);
      match attempts[i]
      case NetworkError =>
        if i < MaxRetries - 1 then
          RunLoop(attempts, i + 1, st1.(trace := st1.trace + [Sleep(Pow2(i))]))
        else
          (LoopResult(TimedOut, st1.trace), st1)
      case Answered(resp) =>
        var st2 := st1.(response := Some(resp));
        if resp.status == 200 then
          (LoopResult(Downloaded(resp), st2.trace), st2)
        else if resp.status == 403 then
          RunLoop(attempts, i + 1, Refetched(st2))
        else if resp.status == 404 then
          (LoopResult(NotFound, st2.trace), st2)
        else
          RunLoop(attempts, i + 1, st2)
  }

  // ---------------------------------------------------------------------------------------
  // A per-attempt description of the same loop, used as its specification.

  /** Attempt `k` ends the loop by itself: a 200, a 404, or an exception on the last try. */
  predicate Decisive(attempts: seq<Attempt>, k: nat)
    requires k < |attempts|
  {
    match attempts[k]
    case NetworkError => k == MaxRetries - 1
    case Answered(r) => r.status == 200 || r.status == 404
  }

  /** The first decisive attempt at or after `i`, or `MaxRetries` if there is none. */
  function FirstDecisiveFrom(attempts: seq<Attempt>, i: nat): (k: nat)
    requires |attempts| == MaxRetries && i <= MaxRetries
    ensures i <= k <= MaxRetries
    ensures k < MaxRetries ==> Decisive(attempts, k)
    ensures forall j :: i <= j < k ==> !Decisive(attempts, j)
    decreases MaxRetries - i
  {
    if i == MaxRetries then MaxRetries
    else if Decisive(attempts, i) then i
    else FirstDecisiveFrom(attempts, i + 1)
  }

  /** Number of GET requests the loop issues: up to and including the first decisive
      attempt, or all of them. */
  function RequestCount(attempts: seq<Attempt>): (n: nat)
    requires |attempts| == MaxRetries
    ensures 1 <= n <= MaxRetries
  {
    var k := FirstDecisiveFrom(attempts, 0);
    if k < MaxRetries then k + 1 else MaxRetries
  }

  /** How the loop ends, read off the first decisive attempt. */
  function ExpectedExit(attempts: seq<Attempt>): Exit
    requires |attempts| == MaxRetries
  {
    ExitAt(attempts, FirstDecisiveFrom(attempts, 0))
  }

  /** The exit when attempt `k` is the first decisive one (`k == MaxRetries`: none is). */
  function ExitAt(attempts: seq<Attempt>, k: nat): Exit
    requires |attempts| == MaxRetries && k <= MaxRetries
  {
    if k == MaxRetries then
      (if attempts[k - 1].Answered? then Downloaded(attempts[k - 1].response) else NoResponse)
    else match attempts[k]
      case NetworkError => TimedOut
      case Answered(r) => if r.status == 200 then Downloaded(r) else NotFound
  }

  /** The events attempt `k` causes when it is made and is not decisive-and-final:
      its request on the first session, then a backoff sleep after an exception, or a
      session re-fetch after a 403. */
  function Block(attempts: seq<Attempt>, k: nat): seq<Event>
    requires k < |attempts|
  {
    [Request(k, FirstSession)]
    + (if attempts[k].NetworkError? && k < MaxRetries - 1 then [Sleep(Pow2(k))] else [])
    + (if attempts[k].Answered? && attempts[k].response.status == 403 then [RefetchSession] else [])
  }

  /** The events of attempts `i` to `n - 1`. */
  function Plan(attempts: seq<Attempt>, i: nat, n: nat): seq<Event>
    requires n <= |attempts|
    decreases n - i
  {
    if i >= n then [] else Block(attempts, i) + Plan(attempts, i + 1, n)
  }

  /** Preconditions shared by the two halves of the loop's correctness proof: attempt `i`
      is reached, no earlier attempt was decisive, and the state is the one the earlier
      attempts leave. */
  predicate Reached(attempts: seq<Attempt>, i: nat, st: LoopState)
  {
    && |attempts| == MaxRetries && i <= MaxRetries
    && (forall j :: 0 <= j < i ==> !Decisive(attempts, j))
    && st.session == FirstSession
    && (0 < i ==> attempts[i - 1].Answered? ==> st.response == Some(attempts[i - 1].response))
  }

  lemma {:induction false} RunLoopExit(attempts: seq<Attempt>, i: nat, st: LoopState)
    requires Reached(attempts, i, st)
    ensures RunLoop(attempts, i, st).0.exit == ExpectedExit(attempts)
    decreases MaxRetries - i
  {
    FirstDecisiveFromSkips(attempts, 0, i);
    if i == MaxRetries {
      assert attempts[i - 1].Answered? by { assert !Decisive(attempts, i - 1); }
    } else if Decisive(attempts, i) {
      DecisiveStep(attempts, i, st);
    } else {
      var st' := StepState(attempts, i, st);
      RunLoopExit(attempts, i + 1, st');
    }
  }

  lemma {:induction false} RunLoopTrace(attempts: seq<Attempt>, i: nat, st: LoopState)
    requires Reached(attempts, i, st)
    ensures RunLoop(attempts, i, st).0.trace == st.trace + Plan(attempts, i, RequestCount(attempts))
    decreases MaxRetries - i
  {
    FirstDecisiveFromSkips(attempts, 0, i);
    var n := RequestCount(attempts);
    if i == MaxRetries {
    } else if Decisive(attempts, i) {
      assert n == i + 1;
      DecisiveStep(attempts, i, st);
      assert Plan(attempts, i, n) == Block(attempts, i) + Plan(attempts, i + 1, n);
    } else {
      var st' := StepState(attempts, i, st);
      RunLoopTrace(attempts, i + 1, st');
      assert Plan(attempts, i, n) == Block(attempts, i) + Plan(attempts, i + 1, n);
    }
  }

  lemma DecisiveStep(attempts: seq<Attempt>, i: nat, st: LoopState)
    requires |attempts| == MaxRetries && i < MaxRetries
    requires Decisive(attempts, i)
    requires st.session == FirstSession
    ensures RunLoop(attempts, i, st).0.exit == ExitAt(attempts, i)
    ensures RunLoop(attempts, i, st).0.trace == st.trace + Block(attempts, i)
  {
  }

  /** The state a non-decisive attempt hands to the next one. */
  function StepState(attempts: seq<Attempt>, i: nat, st: LoopState): (st': LoopState)
    requires |attempts| == MaxRetries && i < MaxRetries
    requires !Decisive(attempts, i)
    requires st.session == FirstSession
    ensures st'.session == FirstSession
    ensures st'.trace == st.trace + Block(attempts, i)
    ensures attempts[i].Answered? ==> st'.response == Some(attempts[i].response)
    ensures RunLoop(attempts, i, st) == RunLoop(attempts, i + 1, st')
  {
    var st1 := st.(trace := st.trace + [Request(i, st.session)]);
    match attempts[i]
    case NetworkError =>
      st1.(trace := st1.trace + [Sleep(Pow2(i))])
    case Answered(resp) =>
      var st2 := st1.(response := Some(resp));
      if resp.status == 403 then Refetched(st2) else st2
  }

  lemma {:induction false} FirstDecisiveFromSkips(attempts: seq<Attempt>, i: nat, j: nat)
    requires |attempts| == MaxRetries && i <= j <= MaxRetries
    requires forall k :: i <= k < j ==> !Decisive(attempts, k)
    ensures FirstDecisiveFrom(attempts, i) == FirstDecisiveFrom(attempts, j)
    decreases j - i
  {
    if i < j {
      FirstDecisiveFromSkips(attempts, i + 1, j);
    }
  }

  /** The download loop of `reload_data_for_date`, started on the first session. Its exit is
      the one the first decisive attempt dictates, and its trace is, attempt by attempt, the
      request and the sleep or session re-fetch that attempt causes. */
  function DownloadLoop(attempts: seq<Attempt>): (r: LoopResult)
    requires |attempts| == MaxRetries
    ensures r.exit == ExpectedExit(attempts)
    ensures r.trace == Plan(attempts, 0, RequestCount(attempts))
  {
    var st := LoopState(None, FirstSession, None, 0, []);
    RunLoopExit(attempts, 0, st);
    RunLoopTrace(attempts, 0, st);
    RunLoop(attempts, 0, st).0
  }

  // ---------------------------------------------------------------------------------------
  // Consequences.

  /** The attempt numbers of the GET requests in a trace, in order. */
  function Requests(trace: seq<Event>): seq<nat>
  {
    if |trace| == 0 then []
    else (if trace[0].Request? then [trace[0].attempt] else []) + Requests(trace[1..])
  }

  function Range(i: nat, n: nat): seq<nat>
    decreases n - i
  {
    if i >= n then [] else [i] + Range(i + 1, n)
  }

  lemma {:induction false} RequestsAppend(a: seq<Event>, b: seq<Event>)
    ensures Requests(a + b) == Requests(a) + Requests(b)
    decreases |a|
  {
    if |a| == 0 {
      assert a + b == b;
    } else {
      assert (a + b)[1..] == a[1..] + b;
      RequestsAppend(a[1..], b);
    }
  }

  lemma BlockRequests(attempts: seq<Attempt>, i: nat)
    requires i < |attempts|
    ensures Requests(Block(attempts, i)) == [i]
  {
    var b := Block(attempts, i);
    var tail := b[1..];
    assert b == [Request(i, FirstSession)] + tail;
    RequestsAppend([Request(i, FirstSession)], tail);
    assert Requests([Request(i, FirstSession)]) == [i];
    assert forall e :: e in tail ==> !e.Request?;
    NoRequests(tail);
  }

  lemma {:induction false} PlanRequests(attempts: seq<Attempt>, i: nat, n: nat)
    requires n <= |attempts|
    ensures Requests(Plan(attempts, i, n)) == Range(i, n)
    decreases n - i
  {
    if i < n {
      RequestsAppend(Block(attempts, i), Plan(attempts, i + 1, n));
      PlanRequests(attempts, i + 1, n);
      BlockRequests(attempts, i);
    }
  }

  lemma {:induction false} NoRequests(trace: seq<Event>)
    requires forall e :: e in trace ==> !e.Request?
    ensures Requests(trace) == []
    decreases |trace|
  {
    if |trace| > 0 {
      assert trace[0] in trace;
      assert forall e :: e in trace[1..] ==> e in trace;
      NoRequests(trace[1..]);
    }
  }

  lemma {:induction false} RangeLength(i: nat, n: nat)
    ensures |Range(i, n)| == if i >= n then 0 else n - i
    ensures forall k :: 0 <= k < |Range(i, n)| ==> Range(i, n)[k] == i + k
    decreases n - i
  {
    if i < n {
      RangeLength(i + 1, n);
    }
  }

  /** The loop issues the GET requests of attempts 0, 1, ... in order, at most three of
      them; it stops right after a 200 or a 404, and a 404 is reported as not found. */
  lemma RequestsIssued(attempts: seq<Attempt>)
    requires |attempts| == MaxRetries
    ensures var reqs := Requests(DownloadLoop(attempts).trace);
            && |reqs| == RequestCount(attempts) <= MaxRetries
            && (forall k :: 0 <= k < |reqs| ==> reqs[k] == k)
  {
    PlanRequests(attempts, 0, RequestCount(attempts));
    RangeLength(0, RequestCount(attempts));
  }

  /** A 404 ends the loop at once: no request follows it, and the outcome is not-found. */
  lemma NotFoundStopsAtOnce(attempts: seq<Attempt>, k: nat)
    requires |attempts| == MaxRetries && k < MaxRetries
    requires attempts[k].Answered? && attempts[k].response.status == 404
    requires forall j :: 0 <= j < k ==> !Decisive(attempts, j)
    ensures DownloadLoop(attempts).exit == NotFound
    ensures RequestCount(attempts) == k + 1
  {
    FirstDecisiveFromSkips(attempts, 0, k);
  }

  /** A 200 ends the loop with that response, after exactly as many requests. */
  lemma OkStopsAtOnce(attempts: seq<Attempt>, k: nat)
    requires |attempts| == MaxRetries && k < MaxRetries
    requires attempts[k].Answered? && attempts[k].response.status == 200
    requires forall j :: 0 <= j < k ==> !Decisive(attempts, j)
    ensures DownloadLoop(attempts).exit == Downloaded(attempts[k].response)
    ensures RequestCount(attempts) == k + 1
  {
    FirstDecisiveFromSkips(attempts, 0, k);
  }

  /** The loop never ends without a response to continue with: when it runs out of
      attempts, the last attempt was answered and its response is the one kept. */
  lemma NeverWithoutResponse(attempts: seq<Attempt>)
    requires |attempts| == MaxRetries
    ensures DownloadLoop(attempts).exit != NoResponse
    ensures FirstDecisiveFrom(attempts, 0) == MaxRetries ==>
              attempts[MaxRetries - 1].Answered?
              && DownloadLoop(attempts).exit == Downloaded(attempts[MaxRetries - 1].response)
  {
    var k := FirstDecisiveFrom(attempts, 0);
    if k == MaxRetries {
      assert !Decisive(attempts, MaxRetries - 1);
    }
  }

  /** An exception on the third attempt is a timeout; one on an earlier attempt is not. */
  lemma TimeoutOnlyOnLastAttempt(attempts: seq<Attempt>)
    requires |attempts| == MaxRetries
    ensures DownloadLoop(attempts).exit == TimedOut <==>
              RequestCount(attempts) == MaxRetries && attempts[MaxRetries - 1].NetworkError?
  {
    var k := FirstDecisiveFrom(attempts, 0);
    if k < MaxRetries - 1 {
      assert !attempts[k].NetworkError?;
    }
  }

  /** Every event of attempt `k`'s block that is a sleep is the backoff for an exception on
      attempt 0 or 1, lasting 2^k seconds. */
  ghost predicate SleepsAreBackoffs(attempts: seq<Attempt>, trace: seq<Event>)
    requires |attempts| == MaxRetries
  {
    forall j :: 0 <= j < |trace| && trace[j].Sleep? ==>
      && j > 0 && trace[j - 1].Request?
      && var k := trace[j - 1].attempt;
         k < MaxRetries - 1 && attempts[k].NetworkError? && trace[j].seconds == Pow2(k)
  }

  lemma {:induction false} PlanSleeps(attempts: seq<Attempt>, i: nat, n: nat)
    requires |attempts| == MaxRetries && n <= MaxRetries
    ensures SleepsAreBackoffs(attempts, Plan(attempts, i, n))
    decreases n - i
  {
    if i < n {
      PlanSleeps(attempts, i + 1, n);
      var b := Block(attempts, i);
      var rest := Plan(attempts, i + 1, n);
      var p := b + rest;
      forall j | 0 <= j < |p| && p[j].Sleep?
        ensures j > 0 && p[j - 1].Request?
        ensures var k := p[j - 1].attempt;
                k < MaxRetries - 1 && attempts[k].NetworkError? && p[j].seconds == Pow2(k)
      {
        if j < |b| {
          assert j == 1;
        } else {
          var j' := j - |b|;
          assert rest[j'].Sleep?;
          assert j' > 0;
          assert p[j - 1] == rest[j' - 1];
        }
      }
    }
  }

  /** The loop sleeps only right after a network exception on attempt 0 or 1, for 1 and 2
      seconds respectively; a 403 or any other status moves on without sleeping. */
  lemma SleepOnlyAfterNetworkError(attempts: seq<Attempt>)
    requires |attempts| == MaxRetries
    ensures SleepsAreBackoffs(attempts, DownloadLoop(attempts).trace)
  {
    PlanSleeps(attempts, 0, RequestCount(attempts));
  }

  lemma {:induction false} PlanUsesFirstSession(attempts: seq<Attempt>, i: nat, n: nat)
    requires n <= |attempts|
    ensures forall e :: e in Plan(attempts, i, n) && e.Request? ==> e.session == FirstSession
    decreases n - i
  {
    if i < n {
      PlanUsesFirstSession(attempts, i + 1, n);
    }
  }

  /** The 403 branch re-fetches a session but never uses it: every request of the loop goes
      out on the session obtained before the loop. */
  lemma SessionNeverReplaced(attempts: seq<Attempt>)
    requires |attempts| == MaxRetries
    ensures forall e :: e in DownloadLoop(attempts).trace && e.Request? ==> e.session == FirstSession
  {
    PlanUsesFirstSession(attempts, 0, RequestCount(attempts));
  }

  // ---------------------------------------------------------------------------------------
  // The block-page check.

  const AccessDenied: seq<byte> := Latin1("Access Denied")
  const Forbidden: seq<byte> := Latin1("403 Forbidden")

  /** `b"Access Denied" in response.content or b"403 Forbidden" in response.content`. */
  predicate IsBlockPage(content: seq<byte>)
  {
    Contains(content, AccessDenied) || Contains(content, Forbidden)
  }

  /** A body is taken for a block page exactly when one of the two markers occurs in it at
      some offset, whatever the status code. */
  lemma BlockPageIff(content: seq<byte>)
    ensures IsBlockPage(content) <==>
            (exists i :: OccursAt(content, AccessDenied, i)) || (exists i :: OccursAt(content, Forbidden, i))
  {
    ContainsIff(content, AccessDenied);
    ContainsIff(content, Forbidden);
  }
}
