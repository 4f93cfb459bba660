/** shouldIgnoreQuery: drops a recognised query that is empty, or that repeats
    the last accepted query within 1500 ms of the moment it was accepted. The
    clock reading `Date.now()` is a parameter. */
module Dedup {

  /** The duplicate window, in milliseconds. */
  const DedupWindowMs: int := 1500

  /** The two globals the filter keeps: the last accepted query and when it
      was accepted. */
  datatype FilterState = FilterState(lastQuery: string, lastAt: int)

  /** Both globals as the page loads them. */
  const InitialFilter: FilterState := FilterState("", 0)

  /** The answer to one call and the globals after it. */
  datatype Verdict = Verdict(ignored: bool, next: FilterState)

  /** `q === lastUserQuery && now - lastUserQueryAt < 1500`. */
  predicate Duplicate(st: FilterState, q: string, now: int) {
    q == st.lastQuery && now - st.lastAt < DedupWindowMs
  }

  /** One call of shouldIgnoreQuery(q) at time `now`. A query is ignored
      exactly when it is empty or a duplicate, and then the globals stay as
      they were; an accepted query becomes the last query, stamped `now`. */
  function Filter(st: FilterState, q: string, now: int): (v: Verdict)
    ensures v.ignored <==> q == [] || Duplicate(st, q, now)
    ensures v.ignored ==> v.next == st
    ensures !v.ignored ==> v.next == FilterState(q, now)
  {
    if q == [] then Verdict(true, st)
    else if Duplicate(st, q, now) then Verdict(true, st)
    else Verdict(false, FilterState(q, now))
  }

  /** The verdicts of a series of calls, each made with the globals the one
      before left. */
  function FilterAll(st: FilterState, calls: seq<(string, int)>): seq<bool>
    decreases |calls|
  {
    if calls == [] then []
    else
      var v := Filter(st, calls[0].0, calls[0].1);
      [v.ignored] + FilterAll(v.next, calls[1..])
  }

  /** The first non-empty query after the page loads is accepted, whatever
      the clock says: no recognised query equals the initial empty one. */
  lemma FirstQueryAccepted(q: string, now: int)
    requires q != []
    ensures !Filter(InitialFilter, q, now).ignored
  {
  }

  /** A query other than the last accepted one is never a duplicate. */
  lemma OtherQueryAccepted(st: FilterState, q: string, now: int)
    requires q != [] && q != st.lastQuery
    ensures !Filter(st, q, now).ignored
  {
  }

  /** The window is not refreshed by ignored repeats: once `q` is accepted at
      `t0`, every repeat of `q` stamped before `t0 + 1500` is ignored, however
      many there are, and the first repeat at or after `t0 + 1500` is accepted
      again, even if it follows another repeat by less than the window. */
  lemma {:induction false} RepeatsMeasureFromAcceptance(q: string, t0: int, calls: seq<(string, int)>)
    requires q != []
    requires forall k :: 0 <= k < |calls| ==> calls[k].0 == q && calls[k].1 < t0 + DedupWindowMs
    ensures FilterAll(FilterState(q, t0), calls) == seq(|calls|, _ => true)
    ensures forall later :: later >= t0 + DedupWindowMs ==> !Filter(FilterState(q, t0), q, later).ignored
    decreases |calls|
  {
    if calls != [] {
      var tail := calls[1..];
      forall k | 0 <= k < |tail| ensures tail[k].0 == q && tail[k].1 < t0 + DedupWindowMs {
        assert tail[k] == calls[k + 1];
      }
      RepeatsMeasureFromAcceptance(q, t0, tail);
      assert FilterAll(FilterState(q, t0), calls) == [true] + seq(|tail|, _ => true);
    }
  }

  /** A clock that goes back makes the difference negative, so a repeat is
      then ignored too. */
  lemma RepeatBeforeAcceptanceIgnored(st: FilterState, now: int)
    requires st.lastQuery != [] && now <= st.lastAt
    ensures Filter(st, st.lastQuery, now).ignored
  {
  }

  /** The filter as the page keeps it: the two mutable globals. */
  class QueryFilter {
    var lastUserQuery: string
    var lastUserQueryAt: int

    /** Both globals. */
    function State(): FilterState
      reads this
    {
      FilterState(lastUserQuery, lastUserQueryAt)
    }

    constructor ()
      ensures State() == InitialFilter
    {
      lastUserQuery := "";
      lastUserQueryAt := 0;
    }

    /** shouldIgnoreQuery(q) with `Date.now()` read as `now`. */
    method ShouldIgnoreQuery(q: string, now: int) returns (ignore: bool)
      modifies this
      ensures ignore == Filter(old(State()), q, now).ignored
      ensures State() == Filter(old(State()), q, now).next
    {
      if q == [] {
        return true;
      }
      if q == lastUserQuery && now - lastUserQueryAt < DedupWindowMs {
        return true;
      }
      lastUserQuery := q;
      lastUserQueryAt := now;
      return false;
    }
  }

  /** The same query recognised three times: at acceptance, 1000 ms later
      (ignored) and 2000 ms after acceptance (accepted, although it follows the
      ignored repeat by only 1000 ms). */
  method RepeatedQuery(q: string, t0: int) returns (first: bool, second: bool, third: bool)
    requires q != []
    ensures !first && second && !third
  {
    var filter := new QueryFilter();
    first := filter.ShouldIgnoreQuery(q, t0);
    second := filter.ShouldIgnoreQuery(q, t0 + 1000);
    third := filter.ShouldIgnoreQuery(q, t0 + 2000);
  }
}
