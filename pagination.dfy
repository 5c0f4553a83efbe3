/**
 * The cursor walk over the data endpoint of one site (`loop_by_date`):
 * request a page at the cursor, keep it, move the cursor to the last reading
 * of the page's first parameter, and stop when the cursor reaches `now`,
 * when a call fails, or when the new cursor was already used.
 */
module Pagination {
  import opened Wrappers
  import opened Telemetry

  /**
   * The data endpoint of one site: the page answered to a request whose
   * `startTime` is the given cursor, or None when the call was not ok.
   */
  type Oracle = Timestamp -> Option<Page>

  /** Reading the next cursor out of a kept page failed (an index error). */
  datatype WalkError = MalformedPage

  ghost predicate Distinct(s: seq<Timestamp>) {
    forall i, j :: 0 <= i < j < |s| ==> s[i] != s[j]
  }

  ghost predicate Below(s: seq<Timestamp>, now: int) {
    forall i :: 0 <= i < |s| ==> s[i] < now
  }

  /**
   * `cs` are the cursors of successive successful requests from `start`:
   * the first is `start`, every one was answered with a page, and each later
   * one is the next cursor of the page before it.
   */
  ghost predicate Chain(fetch: Oracle, start: Timestamp, cs: seq<Timestamp>) {
    && (|cs| > 0 ==> cs[0] == start)
    && (forall i :: 0 <= i < |cs| ==> fetch(cs[i]).Some?)
    && (forall i :: 0 <= i < |cs| - 1 ==> NextCursor(fetch(cs[i]).value) == Some(cs[i + 1]))
  }

  /**
   * The cursor the walk holds after the requests `cs`: `start` before any
   * request, else the next cursor of the last page (None: it has none).
   */
  ghost function Pending(fetch: Oracle, start: Timestamp, cs: seq<Timestamp>): Option<Timestamp> {
    if cs == [] then Some(start)
    else
      match fetch(cs[|cs| - 1])
      case None => None
      case Some(p) => NextCursor(p)
  }

  /**
   * What a complete walk from `start` with clock `now` returns (`r`), which
   * cursors it recorded (`cs`, the source's `checked_dates`) and which
   * cursors it sent to the endpoint (`reqs`). Every request is below `now`
   * and no cursor is requested twice. A walk ends in exactly one of four ways:
   *  - the last kept page has no next cursor: the walk raises;
   *  - the next cursor is at or past `now`: caught up, no further request;
   *  - the next cursor was already recorded: no further request;
   *  - the request at the next cursor fails: it is the one request whose
   *    page is not kept.
   * In the three normal endings the result is the kept pages, in order.
   */
  ghost predicate IsWalk(fetch: Oracle, now: int, start: Timestamp, r: Result<seq<Page>, WalkError>,
                         cs: seq<Timestamp>, reqs: seq<Timestamp>)
  {
    && Chain(fetch, start, cs)
    && Distinct(reqs)
    && Below(reqs, now)
    && match r
       case Failure(_) =>
         cs != [] && Pending(fetch, start, cs).None? && reqs == cs
       case Success(pages) =>
         && |pages| == |cs|
         && (forall i :: 0 <= i < |cs| ==> fetch(cs[i]) == Some(pages[i]))
         && Pending(fetch, start, cs).Some?
         && var next := Pending(fetch, start, cs).value;
            || (now <= next && reqs == cs)
            || (next in cs && reqs == cs)
            || (next < now && next !in cs && fetch(next).None? && reqs == cs + [next])
  }

  /** Nats below `n` that are pairwise distinct number at most `n`. */
  lemma DistinctBelow(s: seq<Timestamp>, n: nat)
    requires Distinct(s) && Below(s, n)
    ensures |s| <= n
  {
    RangeBelowSize(n);
    DistinctWithin(s, RangeBelow(n));
  }

  function RangeBelow(n: nat): set<Timestamp> {
    if n == 0 then {} else RangeBelow(n - 1) + {n - 1}
  }

  lemma {:induction false} RangeBelowSize(n: nat)
    ensures |RangeBelow(n)| == n
    ensures forall x: Timestamp :: x in RangeBelow(n) <==> x < n
  {
    if n > 0 {
      RangeBelowSize(n - 1);
    }
  }

  lemma {:induction false} DistinctWithin(s: seq<Timestamp>, bound: set<Timestamp>)
    requires Distinct(s)
    requires forall i :: 0 <= i < |s| ==> s[i] in bound
    ensures |s| <= |bound|
  {
    if s != [] {
      forall i | 0 <= i < |s[1..]| ensures s[1..][i] in bound - {s[0]} {
        assert s[1..][i] == s[i + 1];
      }
      DistinctWithin(s[1..], bound - {s[0]});
    }
  }

  /** The source's `loop_by_date`; `checked` and `requests` are ghost records of the walk. */
  method LoopByDate(fetch: Oracle, now: int, start: Timestamp)
    returns (r: Result<seq<Page>, WalkError>, ghost checked: seq<Timestamp>, ghost requests: seq<Timestamp>)
    ensures IsWalk(fetch, now, start, r, checked, requests)
    ensures Distinct(checked) && Below(checked, now)
    ensures now <= start ==> r == Success([])
    ensures start < now && fetch(start).None? ==> r == Success([])
    ensures r.Failure? ==> start < now && fetch(start).Some?
    ensures r.Success? && r.value != [] ==> fetch(start) == Some(r.value[0]) && |r.value| <= now
    ensures r.Success? ==> forall i :: 0 <= i < |r.value| ==> exists c: Timestamp :: c < now && fetch(c) == Some(r.value[i])
  {
    var responseList: seq<Page> := [];
    var checkedDates: seq<Timestamp> := [];
    requests := [];
    var cursor := start;
    while cursor < now
      invariant Chain(fetch, start, checkedDates)
      invariant |responseList| == |checkedDates|
      invariant forall i :: 0 <= i < |checkedDates| ==> fetch(checkedDates[i]) == Some(responseList[i])
      invariant Pending(fetch, start, checkedDates) == Some(cursor)
      invariant cursor !in checkedDates
      invariant requests == checkedDates
      invariant Distinct(checkedDates) && Below(checkedDates, now)
      decreases now - |checkedDates|
    {
      DistinctBelow(checkedDates + [cursor], now);
      requests := requests + [cursor];
      var call := fetch(cursor);
      if call.None? {
        break;
      }
      var page := call.value;
      ChainStep(fetch, now, start, checkedDates, cursor);
      responseList := responseList + [page];
      checkedDates := checkedDates + [cursor];
      var next := NextCursor(page);
      if next.None? {
        WalkOutcome(fetch, now, start, Failure(MalformedPage), checkedDates, requests);
        return Failure(MalformedPage), checkedDates, requests;
      }
      cursor := next.value;
      if cursor in checkedDates {
        break;
      }
    }
    r, checked := Success(responseList), checkedDates;
    WalkOutcome(fetch, now, start, r, checked, requests);
  }

  /** Keeping the page at the pending cursor extends the chain and moves the pending cursor to that page's next cursor. */
  lemma ChainStep(fetch: Oracle, now: int, start: Timestamp, cs: seq<Timestamp>, cursor: Timestamp)
    requires Chain(fetch, start, cs) && Distinct(cs) && Below(cs, now)
    requires Pending(fetch, start, cs) == Some(cursor) && cursor !in cs && cursor < now
    requires fetch(cursor).Some?
    ensures Chain(fetch, start, cs + [cursor])
    ensures Distinct(cs + [cursor]) && Below(cs + [cursor], now)
    ensures Pending(fetch, start, cs + [cursor]) == NextCursor(fetch(cursor).value)
  {
    var cs' := cs + [cursor];
    assert cs'[..|cs|] == cs;
    assert forall i :: 0 <= i < |cs| ==> cs'[i] == cs[i];
  }

  /**
   * What a complete walk returns, read off the result alone: nothing when
   * `start` is at or past `now` or the first call fails; otherwise the first
   * page is the answer at `start`, there are at most `now` pages, and each is
   * the answer to a cursor below `now`. A walk that raises kept a page at `start`.
   */
  lemma WalkOutcome(fetch: Oracle, now: int, start: Timestamp,
                    r: Result<seq<Page>, WalkError>, cs: seq<Timestamp>, reqs: seq<Timestamp>)
    requires IsWalk(fetch, now, start, r, cs, reqs)
    ensures Distinct(cs) && Below(cs, now)
    ensures now <= start ==> r == Success([])
    ensures start < now && fetch(start).None? ==> r == Success([])
    ensures r.Failure? ==> start < now && fetch(start).Some?
    ensures r.Success? && r.value != [] ==> fetch(start) == Some(r.value[0]) && |r.value| <= now
    ensures r.Success? ==> forall i :: 0 <= i < |r.value| ==> exists c: Timestamp :: c < now && fetch(c) == Some(r.value[i])
  {
    WalkRecordBelowNow(fetch, now, start, r, cs, reqs);
    EmptyWalks(fetch, now, start, r, cs, reqs);
    if cs != [] {
      DistinctBelow(cs, now);
      assert cs[0] == start;
    }
    if r.Success? {
      forall i | 0 <= i < |r.value|
        ensures exists c: Timestamp :: c < now && fetch(c) == Some(r.value[i])
      {
        assert cs[i] < now && fetch(cs[i]) == Some(r.value[i]);
      }
    }
  }

  lemma {:induction false} ChainsAgree(fetch: Oracle, start: Timestamp, c1: seq<Timestamp>, c2: seq<Timestamp>, i: nat)
    requires Chain(fetch, start, c1) && Chain(fetch, start, c2)
    requires i < |c1| && i < |c2|
    ensures c1[i] == c2[i]
  {
    if i > 0 {
      ChainsAgree(fetch, start, c1, c2, i - 1);
    }
  }

  /** Two walks with the same endpoint and start record cursors one of which extends the other. */
  lemma ChainPrefix(fetch: Oracle, start: Timestamp, c1: seq<Timestamp>, c2: seq<Timestamp>)
    requires Chain(fetch, start, c1) && Chain(fetch, start, c2)
    requires |c1| <= |c2|
    ensures c1 == c2[..|c1|]
  {
    forall i | 0 <= i < |c1| ensures c1[i] == c2[i] {
      ChainsAgree(fetch, start, c1, c2, i);
    }
  }

  /** A complete walk records distinct cursors, all below `now`. */
  lemma WalkRecordBelowNow(fetch: Oracle, now: int, start: Timestamp,
                           r: Result<seq<Page>, WalkError>, cs: seq<Timestamp>, reqs: seq<Timestamp>)
    requires IsWalk(fetch, now, start, r, cs, reqs)
    ensures Distinct(cs) && Below(cs, now)
  {
    assert reqs[..|cs|] == cs;
  }

  /**
   * A chain that outgrows a shorter one requested the shorter one's pending
   * cursor, got a page for it, and had it below `now` and not yet recorded.
   */
  lemma LongerChainContinues(fetch: Oracle, now: int, start: Timestamp, c1: seq<Timestamp>, c2: seq<Timestamp>)
    requires Chain(fetch, start, c1) && Chain(fetch, start, c2)
    requires Distinct(c2) && Below(c2, now)
    requires |c1| < |c2|
    ensures Pending(fetch, start, c1) == Some(c2[|c1|])
    ensures c2[|c1|] < now && c2[|c1|] !in c1 && fetch(c2[|c1|]).Some?
  {
    ChainPrefix(fetch, start, c1, c2);
    if c1 != [] {
      assert c1[|c1| - 1] == c2[|c1| - 1];
    }
    forall k | 0 <= k < |c1| ensures c1[k] != c2[|c1|] {
      assert c1[k] == c2[k];
    }
  }

  lemma NoLongerWalk(fetch: Oracle, now: int, start: Timestamp,
                     r1: Result<seq<Page>, WalkError>, c1: seq<Timestamp>, q1: seq<Timestamp>,
                     r2: Result<seq<Page>, WalkError>, c2: seq<Timestamp>, q2: seq<Timestamp>)
    requires IsWalk(fetch, now, start, r1, c1, q1)
    requires IsWalk(fetch, now, start, r2, c2, q2)
    ensures |c2| <= |c1|
  {
    WalkRecordBelowNow(fetch, now, start, r2, c2, q2);
    if |c2| > |c1| {
      LongerChainContinues(fetch, now, start, c1, c2);
      assert false;
    }
  }

  /**
   * The walk is determined by its inputs: any two results, cursor records and
   * request logs that both satisfy IsWalk for the same endpoint, clock and
   * start are equal.
   */
  lemma WalkDeterministic(fetch: Oracle, now: int, start: Timestamp,
                          r1: Result<seq<Page>, WalkError>, c1: seq<Timestamp>, q1: seq<Timestamp>,
                          r2: Result<seq<Page>, WalkError>, c2: seq<Timestamp>, q2: seq<Timestamp>)
    requires IsWalk(fetch, now, start, r1, c1, q1)
    requires IsWalk(fetch, now, start, r2, c2, q2)
    ensures r1 == r2 && c1 == c2 && q1 == q2
  {
    NoLongerWalk(fetch, now, start, r1, c1, q1, r2, c2, q2);
    NoLongerWalk(fetch, now, start, r2, c2, q2, r1, c1, q1);
    ChainPrefix(fetch, start, c1, c2);
    assert c1 == c2;
    match Pending(fetch, start, c1)
    case None =>
      assert r1.Failure? && r2.Failure?;
      assert r1.error.MalformedPage? && r2.error.MalformedPage?;
    case Some(next) =>
      assert r1.value == r2.value;
      if next < now && next !in c1 && fetch(next).None? {
        assert q1 == q2 == c1 + [next];
      } else {
        assert q1 == q2 == c1;
      }
  }

  /**
   * A failed first call leaves the walk empty, after exactly that one request;
   * with `start` at or past `now` there is no request at all.
   */
  lemma {:induction false} EmptyWalks(fetch: Oracle, now: int, start: Timestamp,
                                      r: Result<seq<Page>, WalkError>, cs: seq<Timestamp>, reqs: seq<Timestamp>)
    requires IsWalk(fetch, now, start, r, cs, reqs)
    ensures now <= start ==> r == Success([]) && reqs == []
    ensures start < now && fetch(start).None? ==> r == Success([]) && reqs == [start]
  {
    if cs != [] {
      assert reqs[0] == cs[0] == start;
    }
  }

  /**
   * Two consecutive pages that hand on the same cursor `c` stop the walk
   * after the second page, with no third request; the second page is kept.
   */
  lemma RepeatedCursorStops(fetch: Oracle, now: int, start: Timestamp, c: Timestamp, p1: Page, p2: Page,
                            r: Result<seq<Page>, WalkError>, cs: seq<Timestamp>, reqs: seq<Timestamp>)
    requires start < now && c < now && c != start
    requires fetch(start) == Some(p1) && NextCursor(p1) == Some(c)
    requires fetch(c) == Some(p2) && NextCursor(p2) == Some(c)
    requires IsWalk(fetch, now, start, r, cs, reqs)
    ensures r == Success([p1, p2]) && cs == reqs == [start, c]
  {
    assert IsWalk(fetch, now, start, Success([p1, p2]), [start, c], [start, c]);
    WalkDeterministic(fetch, now, start, r, cs, reqs, Success([p1, p2]), [start, c], [start, c]);
  }

  /** The endpoint answers the request at `c` with a page whose next cursor lies beyond `c`. */
  ghost predicate AdvancesFrom(fetch: Oracle, c: Timestamp) {
    && fetch(c).Some?
    && NextCursor(fetch(c).value).Some?
    && NextCursor(fetch(c).value).value > c
  }

  lemma {:induction false} ChainIncreases(fetch: Oracle, now: int, start: Timestamp, cs: seq<Timestamp>, j: nat)
    requires Chain(fetch, start, cs) && Below(cs, now)
    requires forall c: Timestamp :: c < now ==> AdvancesFrom(fetch, c)
    requires j < |cs|
    ensures forall i :: 0 <= i < j ==> cs[i] < cs[j]
  {
    if j > 0 {
      ChainIncreases(fetch, now, start, cs, j - 1);
      assert AdvancesFrom(fetch, cs[j - 1]);
    }
  }

  /**
   * When every request below `now` is answered with a page whose cursor
   * advances, the walk never fails and never repeats: it keeps one page per
   * cursor, its cursors strictly increase, and it stops exactly when the
   * cursor reaches `now`.
   */
  lemma AdvancingWalkCatchesUp(fetch: Oracle, now: int, start: Timestamp,
                               r: Result<seq<Page>, WalkError>, cs: seq<Timestamp>, reqs: seq<Timestamp>)
    requires forall c: Timestamp :: c < now ==> AdvancesFrom(fetch, c)
    requires IsWalk(fetch, now, start, r, cs, reqs)
    ensures r.Success? && reqs == cs
    ensures forall i, j :: 0 <= i < j < |cs| ==> cs[i] < cs[j]
    ensures now <= Pending(fetch, start, cs).value
  {
    assert Below(cs, now) by {
      assert reqs[..|cs|] == cs;
    }
    forall i, j | 0 <= i < j < |cs| ensures cs[i] < cs[j] {
      ChainIncreases(fetch, now, start, cs, j);
    }
    if cs == [] {
      assert start < now ==> AdvancesFrom(fetch, start);
    } else {
      var last := cs[|cs| - 1];
      assert AdvancesFrom(fetch, last);
      var next := Pending(fetch, start, cs).value;
      assert next < now ==> AdvancesFrom(fetch, next);
      assert next !in cs by {
        forall i | 0 <= i < |cs| ensures cs[i] != next {
          if i < |cs| - 1 {
            assert cs[i] < last;
          }
        }
      }
    }
  }

  /**
   * A finite run of pages whose cursors strictly increase: the page at `c[i]`
   * is `p[i]` and hands on `c[i + 1]`, every requested cursor is below `now`,
   * and the last cursor handed on is at or past `now`. The walk then requests
   * exactly the cursors `c[..|p|]`, keeps every page in that order, and stops
   * without a further request.
   */
  lemma IncreasingChainWalk(fetch: Oracle, now: int, start: Timestamp, c: seq<Timestamp>, p: seq<Page>,
                            r: Result<seq<Page>, WalkError>, cs: seq<Timestamp>, reqs: seq<Timestamp>)
    requires |c| == |p| + 1 && c[0] == start
    requires forall i, j :: 0 <= i < j < |c| ==> c[i] < c[j]
    requires forall i :: 0 <= i < |p| ==> c[i] < now && fetch(c[i]) == Some(p[i]) && NextCursor(p[i]) == Some(c[i + 1])
    requires now <= c[|p|]
    requires IsWalk(fetch, now, start, r, cs, reqs)
    ensures r == Success(p) && cs == reqs == c[..|p|]
  {
    var kept := c[..|p|];
    assert Pending(fetch, start, kept) == Some(c[|p|]);
    assert IsWalk(fetch, now, start, Success(p), kept, kept);
    WalkDeterministic(fetch, now, start, r, cs, reqs, Success(p), kept, kept);
  }

  /** A page whose first (and only) parameter ends with a reading at `last`. */
  function ScenarioPage(last: Timestamp): Page {
    Page(1, [Parameter(1, 1, [Reading(last, 0.0)])])
  }

  /** An endpoint whose page at 0 ends at 500 and whose page at 500 ends at 1000. */
  function ScenarioFetch(c: Timestamp): Option<Page> {
    if c == 0 then Some(ScenarioPage(500))
    else if c == 500 then Some(ScenarioPage(1000))
    else None
  }

  /**
   * With `now` = 1000 and `start` = 0 the walk makes two requests, keeps both
   * pages, and stops because the cursor 1000 is no longer below `now`.
   */
  lemma TwoPageScenario(r: Result<seq<Page>, WalkError>, cs: seq<Timestamp>, reqs: seq<Timestamp>)
    requires IsWalk(ScenarioFetch, 1000, 0, r, cs, reqs)
    ensures r == Success([ScenarioPage(500), ScenarioPage(1000)]) && reqs == [0, 500]
  {
    var c := [0, 500, 1000];
    assert c[..2] == [0, 500];
    IncreasingChainWalk(ScenarioFetch, 1000, 0, c, [ScenarioPage(500), ScenarioPage(1000)], r, cs, reqs);
  }
}
