/** The sliding-window rate limiter: a pruned queue per key, against a counter over the full history. */
module RateLimiter {
  /** Keys are only compared for equality; a number stands for each. */
  type Key = int

  datatype Clock = Naive | Aware(instant: int)

  datatype Outcome = ClockError | ConfigurationError | Allowed | Refused

  datatype Request = Request(key: Key, now: int)

  // ----- The pruned queue -----

  /** Drop instants from the front while they are at or before the threshold. */
  function Prune(events: seq<int>, threshold: int): seq<int> {
    if events != [] && events[0] <= threshold then Prune(events[1..], threshold) else events
  }

  function Recent(limit: int, window: int, events: seq<int>, now: int): seq<int> {
    var kept := Prune(events, now - window);
    if |kept| < limit then kept + [now] else kept
  }

  function EventsOf(events: map<Key, seq<int>>, key: Key): seq<int> {
    if key in events then events[key] else []
  }

  class SlidingWindowRateLimiter {
    const limit: int
    const window: int
    var events: map<Key, seq<int>>

    constructor (limit: int, window: int)
      ensures this.limit == limit && this.window == window && events == map[]
    {
      this.limit, this.window, events := limit, window, map[];
    }

    method Allow(key: Key, now: Clock) returns (r: Outcome)
      modifies this
      ensures r.ClockError? <==> now.Naive?
      ensures r.ConfigurationError? <==> !now.Naive? && (limit < 1 || window <= 0)
      ensures r.ClockError? || r.ConfigurationError? ==> events == old(events)
      ensures r.Allowed? || r.Refused? ==>
                && (r.Allowed? <==> Admits(limit, window, old(events), Request(key, now.instant)))
                && events == Next(limit, window, State(old(events), []), Request(key, now.instant)).queues
    {
      if now.Naive? {
        return ClockError;
      }
      if limit < 1 || window <= 0 {
        return ConfigurationError;
      }
      var queue := EventsOf(events, key);
      var threshold := now.instant - window;
      while queue != [] && queue[0] <= threshold
        invariant Prune(queue, threshold) == Prune(EventsOf(old(events), key), threshold)
      {
        queue := queue[1..];
      }
      if |queue| >= limit {
        events := events[key := queue];
        return Refused;
      }
      events := events[key := queue + [now.instant]];
      r := Allowed;
    }
  }

  // ----- Runs -----

  /** The queues, and beside them the full history of admissions that the limiter does not keep. */
  datatype State = State(queues: map<Key, seq<int>>, admitted: seq<Request>)

  predicate Admits(limit: int, window: int, queues: map<Key, seq<int>>, c: Request) {
    |Prune(EventsOf(queues, c.key), c.now - window)| < limit
  }

  function Next(limit: int, window: int, s: State, c: Request): State {
    State(s.queues[c.key := Recent(limit, window, EventsOf(s.queues, c.key), c.now)],
          if Admits(limit, window, s.queues, c) then s.admitted + [c] else s.admitted)
  }

  /** The state after a sequence of requests. */
  function Run(limit: int, window: int, calls: seq<Request>): State {
    if calls == [] then State(map[], [])
    else Next(limit, window, Run(limit, window, calls[..|calls| - 1]), calls[|calls| - 1])
  }

  /** How many requests of `key` fall in the interval from `low` (excluded) to `high` (included). */
  function Count(requests: seq<Request>, key: Key, low: int, high: int): nat {
    if requests == [] then 0
    else
      var c := requests[|requests| - 1];
      Count(requests[..|requests| - 1], key, low, high) + if c.key == key && low < c.now <= high then 1 else 0
  }

  /** Every key sees a clock that never runs backwards. */
  ghost predicate ForwardClock(calls: seq<Request>) {
    forall i, j :: 0 <= i < j < |calls| && calls[i].key == calls[j].key ==> calls[i].now <= calls[j].now
  }

  // ----- Agreement with the full history -----

  /** The instants of one key. */
  function Instants(requests: seq<Request>, key: Key): seq<int> {
    if requests == [] then []
    else
      var c := requests[|requests| - 1];
      Instants(requests[..|requests| - 1], key) + if c.key == key then [c.now] else []
  }

  /** Non-decreasing, and none after `high`. */
  ghost predicate SortedUpTo(instants: seq<int>, high: int) {
    instants == [] ||
    (instants[|instants| - 1] <= high && SortedUpTo(instants[..|instants| - 1], instants[|instants| - 1]))
  }

  /** `queue` is what is left of `instants` after dropping some from the front, none later than `bound`. */
  ghost predicate Retains(instants: seq<int>, queue: seq<int>, bound: int) {
    if queue == [] then SortedUpTo(instants, bound)
    else
      && instants != [] && instants[|instants| - 1] == queue[|queue| - 1]
      && Retains(instants[..|instants| - 1], queue[..|queue| - 1], bound)
  }

  function CountAfter(instants: seq<int>, low: int, high: int): nat {
    if instants == [] then 0
    else CountAfter(instants[..|instants| - 1], low, high) + if low < instants[|instants| - 1] <= high then 1 else 0
  }

  lemma {:induction false} CountInstants(requests: seq<Request>, key: Key, low: int, high: int)
    ensures Count(requests, key, low, high) == CountAfter(Instants(requests, key), low, high)
  {
    if requests != [] {
      var before, c := requests[..|requests| - 1], requests[|requests| - 1];
      CountInstants(before, key, low, high);
      assert requests == before + [c];
      InstantsAppend(before, c, key);
      if c.key == key {
        assert (Instants(before, key) + [c.now])[..|Instants(before, key)|] == Instants(before, key);
      }
    }
  }

  lemma {:induction false} SortedLater(instants: seq<int>, high: int, later: int)
    requires SortedUpTo(instants, high) && high <= later
    ensures SortedUpTo(instants, later)
  {
  }

  lemma {:induction false} RetainsLater(instants: seq<int>, queue: seq<int>, bound: int, later: int)
    requires Retains(instants, queue, bound) && bound <= later
    ensures Retains(instants, queue, later)
    decreases |queue|
  {
    if queue != [] {
      RetainsLater(instants[..|instants| - 1], queue[..|queue| - 1], bound, later);
    }
  }

  lemma {:induction false} RetainsTail(instants: seq<int>, queue: seq<int>, bound: int, high: int)
    requires SortedUpTo(instants, high) && Retains(instants, queue, bound) && queue != [] && queue[0] <= bound
    ensures Retains(instants, queue[1..], bound)
    decreases |queue|
  {
    var n, m := |instants| - 1, |queue| - 1;
    if m == 0 {
      SortedLater(instants, instants[n], bound);
    } else {
      RetainsTail(instants[..n], queue[..m], bound, instants[n]);
      assert queue[1..][..m - 1] == queue[..m][1..];
    }
  }

  lemma {:induction false} PruneRetains(instants: seq<int>, queue: seq<int>, threshold: int, high: int)
    requires SortedUpTo(instants, high) && Retains(instants, queue, threshold)
    ensures var kept := Prune(queue, threshold);
            Retains(instants, kept, threshold) && (kept == [] || kept[0] > threshold)
    decreases |queue|
  {
    if queue != [] && queue[0] <= threshold {
      RetainsTail(instants, queue, threshold, high);
      PruneRetains(instants, queue[1..], threshold, high);
    }
  }

  lemma {:induction false} RetainsLast(instants: seq<int>, kept: seq<int>, low: int, high: int)
    requires SortedUpTo(instants, high) && Retains(instants, kept, low) && kept != []
    ensures kept[0] <= instants[|instants| - 1]
    decreases |kept|
  {
    var n, m := |instants| - 1, |kept| - 1;
    if m > 0 {
      RetainsLast(instants[..n], kept[..m], low, instants[n]);
    }
  }

  /** In a sorted history the pruned queue holds exactly the instants of the window. */
  lemma {:induction false} KeptCounts(instants: seq<int>, kept: seq<int>, low: int, high: int, top: int)
    requires SortedUpTo(instants, top) && top <= high
    requires Retains(instants, kept, low) && (kept == [] || kept[0] > low)
    ensures CountAfter(instants, low, high) == |kept|
    decreases |instants|
  {
    if instants != [] {
      var n := |instants| - 1;
      if kept == [] {
        SortedLater(instants[..n], instants[n], low);
        KeptCounts(instants[..n], [], low, high, instants[n]);
      } else {
        RetainsLast(instants, kept, low, top);
        KeptCounts(instants[..n], kept[..|kept| - 1], low, high, instants[n]);
      }
    }
  }

  ghost predicate Keeps(instants: seq<int>, queue: seq<int>, last: int, window: int) {
    SortedUpTo(instants, last) && Retains(instants, queue, last - window)
  }

  /** One key's queue keeps what matters of its admissions up to `last`. */
  ghost predicate Faithful(window: int, s: State, key: Key, last: int) {
    Keeps(Instants(s.admitted, key), EventsOf(s.queues, key), last, window)
  }

  lemma InstantsAppend(requests: seq<Request>, c: Request, key: Key)
    ensures Instants(requests + [c], key) == if c.key == key then Instants(requests, key) + [c.now] else Instants(requests, key)
  {
    assert (requests + [c])[..|requests|] == requests;
  }

  lemma CountAppend(requests: seq<Request>, c: Request, key: Key, low: int, high: int)
    ensures Count(requests + [c], key, low, high) ==
            Count(requests, key, low, high) + if c.key == key && low < c.now <= high then 1 else 0
  {
    assert (requests + [c])[..|requests|] == requests;
  }

  /** Admitting the present instant keeps the history sorted and the queue its end. */
  lemma RetainsAdmitted(instants: seq<int>, kept: seq<int>, bound: int, now: int)
    requires SortedUpTo(instants, now) && Retains(instants, kept, bound)
    ensures SortedUpTo(instants + [now], now) && Retains(instants + [now], kept + [now], bound)
  {
    assert (instants + [now])[..|instants|] == instants && (kept + [now])[..|kept|] == kept;
  }

  /** One decision on one key: the pruned queue counts the window, and goes on keeping what it should. */
  lemma RecentRetains(limit: int, window: int, instants: seq<int>, queue: seq<int>, now: int)
    requires Keeps(instants, queue, now, window)
    ensures var kept := Prune(queue, now - window);
            && CountAfter(instants, now - window, now) == |kept|
            && Keeps(if |kept| < limit then instants + [now] else instants, Recent(limit, window, queue, now), now, window)
  {
    var kept := Prune(queue, now - window);
    PruneRetains(instants, queue, now - window, now);
    KeptCounts(instants, kept, now - window, now, now);
    RetainsAdmitted(instants, kept, now - window, now);
  }

  /** A faithful queue decides as a counter over all admissions would. */
  lemma FaithfulDecides(limit: int, window: int, s: State, c: Request)
    requires Faithful(window, s, c.key, c.now)
    ensures Admits(limit, window, s.queues, c) <==> Count(s.admitted, c.key, c.now - window, c.now) < limit
  {
    RecentRetains(limit, window, Instants(s.admitted, c.key), EventsOf(s.queues, c.key), c.now);
    CountInstants(s.admitted, c.key, c.now - window, c.now);
  }

  lemma NextParts(limit: int, window: int, s: State, c: Request, key: Key)
    ensures var next := Next(limit, window, s, c);
            && EventsOf(next.queues, key) ==
               (if c.key == key then Recent(limit, window, EventsOf(s.queues, key), c.now) else EventsOf(s.queues, key))
            && Instants(next.admitted, key) ==
               (if c.key == key && Admits(limit, window, s.queues, c) then Instants(s.admitted, key) + [c.now]
                else Instants(s.admitted, key))
  {
    InstantsAppend(s.admitted, c, key);
  }

  lemma FaithfulFrom(window: int, s: State, key: Key, last: int, instants: seq<int>, queue: seq<int>)
    requires Instants(s.admitted, key) == instants && EventsOf(s.queues, key) == queue && Keeps(instants, queue, last, window)
    ensures Faithful(window, s, key, last)
  {
  }

  /** One more request of the key: the queue still keeps what it should. */
  lemma FaithfulStep(limit: int, window: int, s: State, c: Request)
    requires Faithful(window, s, c.key, c.now)
    ensures Faithful(window, Next(limit, window, s, c), c.key, c.now)
  {
    var instants, queue := Instants(s.admitted, c.key), EventsOf(s.queues, c.key);
    NextParts(limit, window, s, c, c.key);
    RecentRetains(limit, window, instants, queue, c.now);
    FaithfulFrom(window, Next(limit, window, s, c), c.key, c.now,
                 if |Prune(queue, c.now - window)| < limit then instants + [c.now] else instants, Recent(limit, window, queue, c.now));
  }

  lemma FaithfulOther(limit: int, window: int, s: State, c: Request, key: Key, last: int)
    requires Faithful(window, s, key, last) && c.key != key
    ensures Faithful(window, Next(limit, window, s, c), key, last)
  {
    NextParts(limit, window, s, c, key);
  }

  lemma FaithfulLater(window: int, s: State, key: Key, last: int, later: int)
    requires Faithful(window, s, key, last) && last <= later
    ensures Faithful(window, s, key, later)
  {
    SortedLater(Instants(s.admitted, key), last, later);
    RetainsLater(Instants(s.admitted, key), EventsOf(s.queues, key), last - window, later - window);
  }

  /** Every request of the key is at or before `last`. */
  ghost predicate Past(calls: seq<Request>, key: Key, last: int) {
    forall i :: 0 <= i < |calls| && calls[i].key == key ==> calls[i].now <= last
  }

  lemma ForwardPrefix(calls: seq<Request>)
    requires ForwardClock(calls) && calls != []
    ensures var before, c := calls[..|calls| - 1], calls[|calls| - 1];
            ForwardClock(before) && Past(before, c.key, c.now)
  {
  }

  lemma {:induction false} AlwaysFaithful(limit: int, window: int, calls: seq<Request>, key: Key, last: int)
    requires ForwardClock(calls) && Past(calls, key, last)
    ensures Faithful(window, Run(limit, window, calls), key, last)
    decreases |calls|
  {
    if calls != [] {
      var before, c := calls[..|calls| - 1], calls[|calls| - 1];
      ForwardPrefix(calls);
      var s := Run(limit, window, before);
      if c.key == key {
        AlwaysFaithful(limit, window, before, key, c.now);
        FaithfulStep(limit, window, s, c);
        FaithfulLater(window, Next(limit, window, s, c), key, c.now, last);
      } else {
        AlwaysFaithful(limit, window, before, key, last);
        FaithfulOther(limit, window, s, c, key, last);
      }
    }
  }

  /** With a forward clock the pruned queue decides as a counter over all admissions would. */
  lemma AgreesWithFullHistory(limit: int, window: int, calls: seq<Request>, c: Request)
    requires ForwardClock(calls + [c])
    ensures var s := Run(limit, window, calls);
            Admits(limit, window, s.queues, c) <==> Count(s.admitted, c.key, c.now - window, c.now) < limit
  {
    ForwardPrefix(calls + [c]);
    assert (calls + [c])[..|calls|] == calls;
    AlwaysFaithful(limit, window, calls, c.key, c.now);
    FaithfulDecides(limit, window, Run(limit, window, calls), c);
  }

  function CountedNext(limit: int, window: int, admitted: seq<Request>, c: Request): seq<Request> {
    if Count(admitted, c.key, c.now - window, c.now) < limit then admitted + [c] else admitted
  }

  /** The requests that a counter over the full history admits. */
  function CountedRun(limit: int, window: int, calls: seq<Request>): seq<Request> {
    if calls == [] then []
    else CountedNext(limit, window, CountedRun(limit, window, calls[..|calls| - 1]), calls[|calls| - 1])
  }

  /** Over a whole run with a forward clock, the limiter and the counter admit the same requests. */
  lemma {:induction false} SameAdmissions(limit: int, window: int, calls: seq<Request>)
    requires ForwardClock(calls)
    ensures Run(limit, window, calls).admitted == CountedRun(limit, window, calls)
    decreases |calls|
  {
    if calls != [] {
      var before, c := calls[..|calls| - 1], calls[|calls| - 1];
      ForwardPrefix(calls);
      SameAdmissions(limit, window, before);
      AlwaysFaithful(limit, window, before, c.key, c.now);
      SameNext(limit, window, Run(limit, window, before), c);
    }
  }

  lemma SameNext(limit: int, window: int, s: State, c: Request)
    requires Faithful(window, s, c.key, c.now)
    ensures Next(limit, window, s, c).admitted == CountedNext(limit, window, s.admitted, c)
  {
    FaithfulDecides(limit, window, s, c);
  }
}
