/** The sliding window's two promises, a bound on admissions and agreement with the full history, and exactly when the code keeps them. */
module WindowBounds {
  import opened RateLimiter

  /** At most `limit` admissions of the key within the window that ends at `t`. */
  predicate InBound(limit: int, window: int, admitted: seq<Request>, key: Key, t: int) {
    Count(admitted, key, t - window, t) <= limit
  }

  /** So it is at every instant, for every key. */
  ghost predicate KeepsBound(limit: int, window: int, calls: seq<Request>) {
    forall key, t :: InBound(limit, window, Run(limit, window, calls).admitted, key, t)
  }

  /** The clock passes `x` by a whole window at `y`, and at `z` is back within a window of `x`. */
  predicate Revives(window: int, x: int, y: int, z: int) {
    x <= y - window && x - window < z < x + window
  }

  /** No key sees such a step back. */
  ghost predicate NoRevival(window: int, calls: seq<Request>) {
    forall i, j, k :: 0 <= i < j < k < |calls| && calls[i].key == calls[j].key == calls[k].key ==>
                        !Revives(window, calls[i].now, calls[j].now, calls[k].now)
  }

  lemma ForwardNeverRevives(window: int, calls: seq<Request>)
    requires ForwardClock(calls)
    ensures NoRevival(window, calls)
  {
  }

  // ----- What the queue forgets -----

  ghost predicate Called(calls: seq<Request>, key: Key, x: int) {
    exists i :: 0 <= i < |calls| && calls[i] == Request(key, x)
  }

  /** A call at `x`, and after it one at least a window later. */
  ghost predicate PushedOut(window: int, calls: seq<Request>, key: Key, x: int) {
    exists i, j :: 0 <= i < j < |calls| && calls[i] == Request(key, x) && calls[j].key == key && x <= calls[j].now - window
  }

  /** Admitted instants in two parts: those dropped, all pushed out by later calls, and the queue. */
  ghost predicate Tracks(window: int, calls: seq<Request>, key: Key, dropped: seq<int>, queue: seq<int>) {
    && (forall i :: 0 <= i < |dropped| ==> PushedOut(window, calls, key, dropped[i]))
    && (forall i :: 0 <= i < |queue| ==> Called(calls, key, queue[i]))
  }

  lemma {:induction false} PruneSplits(queue: seq<int>, threshold: int) returns (n: nat)
    ensures n <= |queue| && Prune(queue, threshold) == queue[n..]
    ensures forall i :: 0 <= i < n ==> queue[i] <= threshold
    decreases |queue|
  {
    if queue != [] && queue[0] <= threshold {
      var m := PruneSplits(queue[1..], threshold);
      n := m + 1;
      assert queue[1..][m..] == queue[n..];
      assert forall i :: 0 < i < n ==> queue[i] == queue[1..][i - 1];
    } else {
      n := 0;
    }
  }

  lemma CalledLonger(calls: seq<Request>, c: Request, key: Key, x: int)
    requires Called(calls, key, x)
    ensures Called(calls + [c], key, x)
  {
    var i :| 0 <= i < |calls| && calls[i] == Request(key, x);
    assert (calls + [c])[i] == calls[i];
  }

  lemma PushedOutLonger(window: int, calls: seq<Request>, c: Request, key: Key, x: int)
    requires PushedOut(window, calls, key, x)
    ensures PushedOut(window, calls + [c], key, x)
  {
    var i, j :| 0 <= i < j < |calls| && calls[i] == Request(key, x) && calls[j].key == key && x <= calls[j].now - window;
    assert (calls + [c])[i] == calls[i] && (calls + [c])[j] == calls[j];
  }

  lemma PushedOutNow(window: int, calls: seq<Request>, c: Request, x: int)
    requires Called(calls, c.key, x) && x <= c.now - window
    ensures PushedOut(window, calls + [c], c.key, x)
  {
    var i :| 0 <= i < |calls| && calls[i] == Request(c.key, x);
    assert (calls + [c])[i] == calls[i] && (calls + [c])[|calls|] == c;
  }

  lemma TracksLonger(window: int, calls: seq<Request>, c: Request, key: Key, dropped: seq<int>, queue: seq<int>)
    requires Tracks(window, calls, key, dropped, queue)
    ensures Tracks(window, calls + [c], key, dropped, queue)
  {
    forall i | 0 <= i < |queue| ensures Called(calls + [c], key, queue[i]) {
      CalledLonger(calls, c, key, queue[i]);
    }
    forall i | 0 <= i < |dropped| ensures PushedOut(window, calls + [c], key, dropped[i]) {
      PushedOutLonger(window, calls, c, key, dropped[i]);
    }
  }

  /** Pruning at a call pushes out what it drops. */
  lemma TracksPruned(window: int, calls: seq<Request>, c: Request, dropped: seq<int>, queue: seq<int>) returns (n: nat)
    requires Tracks(window, calls, c.key, dropped, queue)
    ensures n <= |queue| && Prune(queue, c.now - window) == queue[n..]
    ensures Tracks(window, calls + [c], c.key, dropped + queue[..n], queue[n..])
  {
    TracksLonger(window, calls, c, c.key, dropped, queue);
    n := PruneSplits(queue, c.now - window);
    forall i | 0 <= i < n ensures PushedOut(window, calls + [c], c.key, queue[i]) {
      PushedOutNow(window, calls, c, queue[i]);
    }
  }

  lemma TracksAdmitted(window: int, calls: seq<Request>, key: Key, dropped: seq<int>, kept: seq<int>, x: int)
    requires Tracks(window, calls, key, dropped, kept) && Called(calls, key, x)
    ensures Tracks(window, calls, key, dropped, kept + [x])
  {
  }

  /** One more call of the key: pruned, and admitted if there is room. */
  lemma TracksCall(limit: int, window: int, calls: seq<Request>, c: Request, dropped: seq<int>, queue: seq<int>) returns (dropped': seq<int>)
    requires Tracks(window, calls, c.key, dropped, queue)
    ensures Tracks(window, calls + [c], c.key, dropped', Recent(limit, window, queue, c.now))
    ensures dropped' + Recent(limit, window, queue, c.now) ==
            dropped + queue + if |Prune(queue, c.now - window)| < limit then [c.now] else []
  {
    var n := TracksPruned(window, calls, c, dropped, queue);
    assert (calls + [c])[|calls|] == Request(c.key, c.now);
    TracksAdmitted(window, calls + [c], c.key, dropped + queue[..n], queue[n..], c.now);
    dropped' := dropped + queue[..n];
    assert queue == queue[..n] + queue[n..];
  }

  lemma TrackedStep(limit: int, window: int, calls: seq<Request>, s: State, c: Request, key: Key, dropped: seq<int>) returns (dropped': seq<int>)
    requires Instants(s.admitted, key) == dropped + EventsOf(s.queues, key)
    requires Tracks(window, calls, key, dropped, EventsOf(s.queues, key))
    ensures var next := Next(limit, window, s, c);
            && Instants(next.admitted, key) == dropped' + EventsOf(next.queues, key)
            && Tracks(window, calls + [c], key, dropped', EventsOf(next.queues, key))
  {
    NextParts(limit, window, s, c, key);
    if c.key == key {
      dropped' := TracksCall(limit, window, calls, c, dropped, EventsOf(s.queues, key));
    } else {
      TracksLonger(window, calls, c, key, dropped, EventsOf(s.queues, key));
      dropped' := dropped;
    }
  }

  /** Under any clock, what the queue has forgotten was pushed out. */
  lemma {:induction false} AlwaysTracked(limit: int, window: int, calls: seq<Request>, key: Key) returns (dropped: seq<int>)
    ensures var s := Run(limit, window, calls);
            && Instants(s.admitted, key) == dropped + EventsOf(s.queues, key)
            && Tracks(window, calls, key, dropped, EventsOf(s.queues, key))
    decreases |calls|
  {
    if calls == [] {
      dropped := [];
    } else {
      var before, c := calls[..|calls| - 1], calls[|calls| - 1];
      assert calls == before + [c];
      dropped := AlwaysTracked(limit, window, before, key);
      dropped := TrackedStep(limit, window, before, Run(limit, window, before), c, key, dropped);
    }
  }

  // ----- Counting -----

  lemma {:induction false} CountSplits(a: seq<int>, b: seq<int>, low: int, high: int)
    ensures CountAfter(a + b, low, high) == CountAfter(a, low, high) + CountAfter(b, low, high)
    decreases |b|
  {
    if b == [] {
      assert a + b == a;
    } else {
      assert (a + b)[..|a + b| - 1] == a + b[..|b| - 1];
      CountSplits(a, b[..|b| - 1], low, high);
    }
  }

  lemma {:induction false} CountNone(a: seq<int>, low: int, high: int)
    requires forall i :: 0 <= i < |a| ==> !(low < a[i] <= high)
    ensures CountAfter(a, low, high) == 0
  {
    if a != [] {
      CountNone(a[..|a| - 1], low, high);
    }
  }

  lemma {:induction false} CountAtMost(a: seq<int>, low: int, high: int)
    ensures CountAfter(a, low, high) <= |a|
  {
    if a != [] {
      CountAtMost(a[..|a| - 1], low, high);
    }
  }

  // ----- The bound without revival -----

  /** What was dropped before the last call is out of every window around it. */
  lemma DroppedIsFar(window: int, calls: seq<Request>, c: Request, x: int)
    requires NoRevival(window, calls + [c])
    requires PushedOut(window, calls, c.key, x)
    ensures !(x - window < c.now < x + window)
  {
    var all := calls + [c];
    var i, j :| 0 <= i < j < |calls| && calls[i] == Request(c.key, x) && calls[j].key == c.key && x <= calls[j].now - window;
    assert all[i] == calls[i] && all[j] == calls[j] && all[|calls|] == c;
    assert !Revives(window, all[i].now, all[j].now, all[|calls|].now);
  }

  lemma DroppedNotCounted(window: int, calls: seq<Request>, c: Request, dropped: seq<int>, t: int)
    requires NoRevival(window, calls + [c]) && t - window < c.now <= t
    requires forall i :: 0 <= i < |dropped| ==> PushedOut(window, calls, c.key, dropped[i])
    ensures CountAfter(dropped, t - window, t) == 0
  {
    forall i | 0 <= i < |dropped| ensures !(t - window < dropped[i] <= t) { DroppedIsFar(window, calls, c, dropped[i]); }
    CountNone(dropped, t - window, t);
  }

  lemma PrunedCounts(queue: seq<int>, window: int, now: int, t: int)
    requires t - window < now <= t
    ensures CountAfter(queue, t - window, t) <= |Prune(queue, now - window)|
  {
    var n := PruneSplits(queue, now - window);
    CountNone(queue[..n], t - window, t);
    CountAtMost(queue[n..], t - window, t);
    CountSplits(queue[..n], queue[n..], t - window, t);
    assert queue == queue[..n] + queue[n..];
  }

  /** A window that contains an admitted call holds, before it, only instants the queue still has. */
  lemma RoomInWindow(limit: int, window: int, calls: seq<Request>, c: Request, dropped: seq<int>, queue: seq<int>, t: int)
    requires NoRevival(window, calls + [c]) && Tracks(window, calls, c.key, dropped, queue)
    requires |Prune(queue, c.now - window)| < limit && t - window < c.now <= t
    ensures CountAfter(dropped + queue, t - window, t) < limit
  {
    DroppedNotCounted(window, calls, c, dropped, t);
    PrunedCounts(queue, window, c.now, t);
    CountSplits(dropped, queue, t - window, t);
  }

  lemma NoRevivalBefore(window: int, calls: seq<Request>)
    requires NoRevival(window, calls) && calls != []
    ensures NoRevival(window, calls[..|calls| - 1])
  {
  }

  /** One more call keeps a key's bound. */
  lemma BoundStep(limit: int, window: int, calls: seq<Request>, s: State, c: Request, key: Key, t: int, dropped: seq<int>)
    requires NoRevival(window, calls + [c]) && Instants(s.admitted, key) == dropped + EventsOf(s.queues, key)
    requires Tracks(window, calls, key, dropped, EventsOf(s.queues, key))
    requires limit >= 1 && InBound(limit, window, s.admitted, key, t)
    ensures InBound(limit, window, Next(limit, window, s, c).admitted, key, t)
  {
    if Admits(limit, window, s.queues, c) {
      CountAppend(s.admitted, c, key, t - window, t);
      if c.key == key && t - window < c.now <= t {
        RoomInWindow(limit, window, calls, c, dropped, EventsOf(s.queues, key), t);
        CountInstants(s.admitted, key, t - window, t);
      }
    }
  }

  lemma BoundNext(limit: int, window: int, calls: seq<Request>, c: Request, key: Key, t: int)
    requires NoRevival(window, calls + [c]) && limit >= 1
    requires InBound(limit, window, Run(limit, window, calls).admitted, key, t)
    ensures InBound(limit, window, Next(limit, window, Run(limit, window, calls), c).admitted, key, t)
  {
    var dropped := AlwaysTracked(limit, window, calls, key);
    BoundStep(limit, window, calls, Run(limit, window, calls), c, key, t, dropped);
  }

  /** The bound holds for every run in which no key's clock revives a forgotten instant. */
  lemma {:induction false} WindowBound(limit: int, window: int, calls: seq<Request>, key: Key, t: int)
    requires NoRevival(window, calls) && limit >= 1
    ensures InBound(limit, window, Run(limit, window, calls).admitted, key, t)
    decreases |calls|
  {
    if calls != [] {
      var before, c := calls[..|calls| - 1], calls[|calls| - 1];
      NoRevivalBefore(window, calls);
      WindowBound(limit, window, before, key, t);
      assert NoRevival(window, before + [c]) by { assert before + [c] == calls; }
      BoundNext(limit, window, before, c, key, t);
    }
  }

  // ----- The bound with limit one -----

  /** At most `high`, and each at least a window after the one before. */
  ghost predicate Spaced(window: int, instants: seq<int>, high: int) {
    instants == [] ||
    (instants[|instants| - 1] <= high && Spaced(window, instants[..|instants| - 1], instants[|instants| - 1] - window))
  }

  /** With limit one the queue is just the last admission. */
  ghost predicate LastOnly(window: int, instants: seq<int>, queue: seq<int>) {
    if instants == [] then queue == []
    else queue == [instants[|instants| - 1]] && Spaced(window, instants, instants[|instants| - 1])
  }

  lemma LastOnlyStep(window: int, instants: seq<int>, queue: seq<int>, now: int)
    requires window > 0 && LastOnly(window, instants, queue)
    ensures LastOnly(window, if |Prune(queue, now - window)| < 1 then instants + [now] else instants, Recent(1, window, queue, now))
  {
    assert (instants + [now])[..|instants|] == instants;
    if instants != [] {
      var last := instants[|instants| - 1];
      assert queue[1..] == [];
      if last <= now - window {
        assert Prune(queue, now - window) == [];
        SpacedLater(window, instants, last, now - window);
      }
    }
  }

  lemma SpacedLater(window: int, instants: seq<int>, high: int, later: int)
    requires Spaced(window, instants, high) && high <= later
    ensures Spaced(window, instants, later)
  {
  }

  ghost predicate KeyLastOnly(window: int, s: State, key: Key) {
    LastOnly(window, Instants(s.admitted, key), EventsOf(s.queues, key))
  }

  lemma LastOnlyFrom(window: int, s: State, key: Key, instants: seq<int>, queue: seq<int>)
    requires Instants(s.admitted, key) == instants && EventsOf(s.queues, key) == queue && LastOnly(window, instants, queue)
    ensures KeyLastOnly(window, s, key)
  {
  }

  lemma KeyLastOnlyStep(window: int, s: State, c: Request, key: Key)
    requires window > 0 && KeyLastOnly(window, s, key)
    ensures KeyLastOnly(window, Next(1, window, s, c), key)
  {
    var instants, queue := Instants(s.admitted, key), EventsOf(s.queues, key);
    NextParts(1, window, s, c, key);
    if c.key == key {
      LastOnlyStep(window, instants, queue, c.now);
      LastOnlyFrom(window, Next(1, window, s, c), key,
                   if |Prune(queue, c.now - window)| < 1 then instants + [c.now] else instants, Recent(1, window, queue, c.now));
    } else {
      LastOnlyFrom(window, Next(1, window, s, c), key, instants, queue);
    }
  }

  lemma {:induction false} AlwaysLastOnly(window: int, calls: seq<Request>, key: Key)
    requires window > 0
    ensures KeyLastOnly(window, Run(1, window, calls), key)
    decreases |calls|
  {
    if calls != [] {
      AlwaysLastOnly(window, calls[..|calls| - 1], key);
      KeyLastOnlyStep(window, Run(1, window, calls[..|calls| - 1]), calls[|calls| - 1], key);
    }
  }

  lemma {:induction false} SpacedBelow(window: int, instants: seq<int>, high: int, low: int, top: int)
    requires window > 0 && Spaced(window, instants, high) && high <= low
    ensures CountAfter(instants, low, top) == 0
    decreases |instants|
  {
    if instants != [] {
      SpacedBelow(window, instants[..|instants| - 1], instants[|instants| - 1] - window, low, top);
    }
  }

  lemma {:induction false} SpacedOnce(window: int, instants: seq<int>, high: int, t: int)
    requires window > 0 && Spaced(window, instants, high)
    ensures CountAfter(instants, t - window, t) <= 1
    decreases |instants|
  {
    if instants != [] {
      var rest, last := instants[..|instants| - 1], instants[|instants| - 1];
      SpacedOnce(window, rest, last - window, t);
      if t - window < last <= t {
        SpacedBelow(window, rest, last - window, t - window, t);
      }
    }
  }

  lemma LastOnlyInBound(window: int, s: State, key: Key, t: int)
    requires window > 0 && KeyLastOnly(window, s, key)
    ensures InBound(1, window, s.admitted, key, t)
  {
    var instants := Instants(s.admitted, key);
    CountInstants(s.admitted, key, t - window, t);
    if instants != [] {
      SpacedOnce(window, instants, instants[|instants| - 1], t);
    }
  }

  /** With limit one the bound holds whatever the clock does. */
  lemma LimitOneBound(window: int, calls: seq<Request>)
    requires window > 0
    ensures KeepsBound(1, window, calls)
  {
    forall key, t ensures InBound(1, window, Run(1, window, calls).admitted, key, t) {
      AlwaysLastOnly(window, calls, key);
      LastOnlyInBound(window, Run(1, window, calls), key, t);
    }
  }

  /** In particular, clocks that never run backwards keep the bound. */
  lemma ForwardBound(limit: int, window: int, calls: seq<Request>)
    requires limit >= 1 && window > 0 && ForwardClock(calls)
    ensures KeepsBound(limit, window, calls)
  {
    ForwardNeverRevives(window, calls);
    forall key, t ensures InBound(limit, window, Run(limit, window, calls).admitted, key, t) {
      WindowBound(limit, window, calls, key, t);
    }
  }

  // ----- Overrunning -----

  function Burst(key: Key, x: int, n: nat): seq<Request> {
    if n == 0 then [] else Burst(key, x, n - 1) + [Request(key, x)]
  }

  function Copies(x: int, n: nat): seq<int> {
    if n == 0 then [] else Copies(x, n - 1) + [x]
  }

  lemma {:induction false} CopiesAre(x: int, n: nat)
    ensures |Copies(x, n)| == n && forall i :: 0 <= i < n ==> Copies(x, n)[i] == x
  {
    if n > 0 {
      CopiesAre(x, n - 1);
    }
  }

  lemma {:induction false} BurstIs(key: Key, x: int, n: nat)
    ensures |Burst(key, x, n)| == n && forall i :: 0 <= i < n ==> Burst(key, x, n)[i] == Request(key, x)
  {
    if n > 0 {
      BurstIs(key, x, n - 1);
    }
  }

  lemma {:induction false} PruneAll(queue: seq<int>, threshold: int)
    requires forall i :: 0 <= i < |queue| ==> queue[i] <= threshold
    ensures Prune(queue, threshold) == []
  {
    if queue != [] {
      PruneAll(queue[1..], threshold);
    }
  }

  /** The limiter has just `queue` for the key, and has admitted every call. */
  ghost predicate AllAdmitted(limit: int, window: int, calls: seq<Request>, key: Key, queue: seq<int>) {
    EventsOf(Run(limit, window, calls).queues, key) == queue && Run(limit, window, calls).admitted == calls
  }

  lemma OneAdmitted(limit: int, window: int, calls: seq<Request>, c: Request, queue: seq<int>)
    requires AllAdmitted(limit, window, calls, c.key, queue) && |Prune(queue, c.now - window)| < limit
    ensures AllAdmitted(limit, window, calls + [c], c.key, Prune(queue, c.now - window) + [c.now])
  {
    assert (calls + [c])[..|calls|] == calls;
  }

  lemma KeepAll(x: int, n: nat, threshold: int)
    requires threshold < x
    ensures Prune(Copies(x, n), threshold) == Copies(x, n) && |Copies(x, n)| == n
  {
    CopiesAre(x, n);
  }

  lemma BurstStep(limit: int, window: int, key: Key, x: int, calls: seq<Request>, n: nat)
    requires window > 0 && n < limit && AllAdmitted(limit, window, calls, key, Copies(x, n))
    ensures AllAdmitted(limit, window, calls + [Request(key, x)], key, Copies(x, n) + [x])
  {
    KeepAll(x, n, x - window);
    OneAdmitted(limit, window, calls, Request(key, x), Copies(x, n));
  }

  lemma {:induction false} BurstAdmitted(limit: int, window: int, key: Key, x: int, n: nat)
    requires window > 0 && n <= limit
    ensures AllAdmitted(limit, window, Burst(key, x, n), key, Copies(x, n))
  {
    if n > 0 {
      BurstAdmitted(limit, window, key, x, n - 1);
      BurstStep(limit, window, key, x, Burst(key, x, n - 1), n - 1);
    }
  }

  lemma {:induction false} CountBurst(key: Key, x: int, n: nat, low: int, high: int)
    requires low < x <= high
    ensures Count(Burst(key, x, n), key, low, high) == n
  {
    if n > 0 {
      CountBurst(key, x, n - 1, low, high);
      CountAppend(Burst(key, x, n - 1), Request(key, x), key, low, high);
    }
  }

  /** Fill the window at `x`, let the clock run on to `y`, and bring it back to `z`. */
  function Overrun(key: Key, limit: nat, x: int, y: int, z: int): seq<Request> {
    Burst(key, x, limit) + [Request(key, y)] + [Request(key, z)]
  }

  lemma OverrunAdmitted(limit: nat, window: int, key: Key, x: int, y: int, z: int)
    requires limit >= 2 && window > 0 && Revives(window, x, y, z)
    ensures Run(limit, window, Overrun(key, limit, x, y, z)).admitted == Overrun(key, limit, x, y, z)
  {
    BurstAdmitted(limit, window, key, x, limit);
    CopiesAre(x, limit);
    PruneAll(Copies(x, limit), y - window);
    OneAdmitted(limit, window, Burst(key, x, limit), Request(key, y), Copies(x, limit));
    assert [] + [y] == [y];
    OneAdmitted(limit, window, Burst(key, x, limit) + [Request(key, y)], Request(key, z), [y]);
  }

  lemma CountOverrun(limit: nat, key: Key, x: int, y: int, z: int, low: int, high: int)
    requires low < x <= high && low < z <= high
    ensures Count(Overrun(key, limit, x, y, z), key, low, high) > limit
  {
    CountBurst(key, x, limit, low, high);
    CountAppend(Burst(key, x, limit), Request(key, y), key, low, high);
    CountAppend(Burst(key, x, limit) + [Request(key, y)], Request(key, z), key, low, high);
  }

  /** With a limit above one, every revival is enough to overrun: `limit` calls at `x`, one at `y`, one at `z`. */
  lemma RevivalOverruns(limit: nat, window: int, key: Key, x: int, y: int, z: int)
    requires limit >= 2 && window > 0 && Revives(window, x, y, z)
    ensures !KeepsBound(limit, window, Overrun(key, limit, x, y, z))
  {
    var t := if x < z then z else x;
    OverrunAdmitted(limit, window, key, x, y, z);
    CountOverrun(limit, key, x, y, z, t - window, t);
    assert !InBound(limit, window, Run(limit, window, Overrun(key, limit, x, y, z)).admitted, key, t);
  }

  // ----- Exactly when -----

  /** The calls read the clock in order: each at one of its readings, any number at each. */
  ghost predicate Reads(calls: seq<Request>, clock: seq<int>, at: seq<nat>) {
    && |at| == |calls|
    && (forall i :: 0 <= i < |calls| ==> at[i] < |clock| && calls[i].now == clock[at[i]])
    && (forall i, j :: 0 <= i < j < |calls| ==> at[i] <= at[j])
  }

  ghost predicate ClockRevives(window: int, clock: seq<int>) {
    exists i, j, k :: 0 <= i < j < k < |clock| && Revives(window, clock[i], clock[j], clock[k])
  }

  lemma ReadsWithoutRevival(window: int, calls: seq<Request>, clock: seq<int>, at: seq<nat>)
    requires window > 0 && Reads(calls, clock, at) && !ClockRevives(window, clock)
    ensures NoRevival(window, calls)
  {
    forall i, j, k | 0 <= i < j < k < |calls| ensures !Revives(window, calls[i].now, calls[j].now, calls[k].now) {
      assert at[i] <= at[j] <= at[k];
      if at[i] < at[j] < at[k] {
        assert !Revives(window, clock[at[i]], clock[at[j]], clock[at[k]]);
      }
    }
  }

  lemma OverrunReads(limit: nat, key: Key, clock: seq<int>, i: nat, j: nat, k: nat) returns (at: seq<nat>)
    requires i < j < k < |clock|
    ensures Reads(Overrun(key, limit, clock[i], clock[j], clock[k]), clock, at)
  {
    BurstIs(key, clock[i], limit);
    at := seq(limit, n => i) + [j, k];
  }

  /** The code keeps the bound on every run that reads a clock exactly if the limit is one or the clock never revives an instant. */
  lemma BoundExactly(limit: nat, window: int, clock: seq<int>)
    requires limit >= 1 && window > 0
    ensures (forall calls, at :: Reads(calls, clock, at) ==> KeepsBound(limit, window, calls)) <==>
            limit == 1 || !ClockRevives(window, clock)
  {
    if limit == 1 || !ClockRevives(window, clock) {
      forall calls, at | Reads(calls, clock, at) ensures KeepsBound(limit, window, calls) {
        if limit == 1 {
          LimitOneBound(window, calls);
        } else {
          ReadsWithoutRevival(window, calls, clock, at);
          forall key, t ensures InBound(limit, window, Run(limit, window, calls).admitted, key, t) {
            WindowBound(limit, window, calls, key, t);
          }
        }
      }
    } else {
      var i, j, k :| 0 <= i < j < k < |clock| && Revives(window, clock[i], clock[j], clock[k]);
      var at := OverrunReads(limit, 0, clock, i, j, k);
      RevivalOverruns(limit, window, 0, clock[i], clock[j], clock[k]);
    }
  }

  /** Whatever the clock does, the bound holds for limit one only. */
  lemma OnlyLimitOne(limit: nat, window: int)
    requires limit >= 1 && window > 0
    ensures (forall calls :: KeepsBound(limit, window, calls)) <==> limit == 1
  {
    if limit == 1 {
      forall calls ensures KeepsBound(limit, window, calls) { LimitOneBound(window, calls); }
    } else {
      RevivalOverruns(limit, window, 0, 0, window, 0);
    }
  }

  // ----- Agreement with the full history, exactly -----

  /** Limiter and full-history counter admit the same requests. */
  ghost predicate Agrees(limit: int, window: int, calls: seq<Request>) {
    Run(limit, window, calls).admitted == CountedRun(limit, window, calls)
  }

  /** Fill the window at `y`, then step back to `z`. */
  function StepBack(key: Key, limit: nat, y: int, z: int): seq<Request> {
    Burst(key, y, limit) + [Request(key, z)]
  }

  lemma {:induction false} CountBurstOutside(key: Key, x: int, n: nat, low: int, high: int)
    requires !(low < x <= high)
    ensures Count(Burst(key, x, n), key, low, high) == 0
  {
    if n > 0 {
      CountBurstOutside(key, x, n - 1, low, high);
      CountAppend(Burst(key, x, n - 1), Request(key, x), key, low, high);
    }
  }

  lemma LimiterRefuses(limit: int, window: int, calls: seq<Request>, c: Request, queue: seq<int>)
    requires AllAdmitted(limit, window, calls, c.key, queue) && |Prune(queue, c.now - window)| >= limit
    ensures Run(limit, window, calls + [c]).admitted == calls
  {
    assert (calls + [c])[..|calls|] == calls;
  }

  lemma CounterAdmits(limit: int, window: int, calls: seq<Request>, c: Request)
    requires CountedRun(limit, window, calls) == calls && Count(calls, c.key, c.now - window, c.now) < limit
    ensures CountedRun(limit, window, calls + [c]) == calls + [c]
  {
    CountedAppend(limit, window, calls, c, calls + [c]);
  }

  lemma CountedAppend(limit: int, window: int, calls: seq<Request>, c: Request, longer: seq<Request>)
    requires longer == calls + [c]
    ensures CountedRun(limit, window, longer) == CountedNext(limit, window, CountedRun(limit, window, calls), c)
  {
    assert longer[..|longer| - 1] == calls;
  }

  /** A burst within the limit is admitted by both. */
  lemma BurstCounted(limit: nat, window: int, key: Key, x: int)
    requires window > 0
    ensures CountedRun(limit, window, Burst(key, x, limit)) == Burst(key, x, limit)
  {
    BurstAdmitted(limit, window, key, x, limit);
    BurstIs(key, x, limit);
    SameAdmissions(limit, window, Burst(key, x, limit));
  }

  /** The limiter still holds the instants at `y` and refuses; the counter finds none of them in the window that ends at `z`. */
  lemma StepBackDisagrees(limit: nat, window: int, key: Key, y: int, z: int)
    requires limit >= 1 && window > 0 && z < y
    ensures var calls := StepBack(key, limit, y, z);
            Run(limit, window, calls).admitted == Burst(key, y, limit) && CountedRun(limit, window, calls) == calls
  {
    BurstAdmitted(limit, window, key, y, limit);
    KeepAll(y, limit, z - window);
    LimiterRefuses(limit, window, Burst(key, y, limit), Request(key, z), Copies(y, limit));
    BurstCounted(limit, window, key, y);
    CountBurstOutside(key, y, limit, z - window, z);
    CounterAdmits(limit, window, Burst(key, y, limit), Request(key, z));
  }

  lemma ReadsForward(calls: seq<Request>, clock: seq<int>, at: seq<nat>)
    requires Reads(calls, clock, at) && Increases(clock)
    ensures ForwardClock(calls)
  {
    forall i, j | 0 <= i < j < |calls| ensures calls[i].now <= calls[j].now {
      assert at[i] <= at[j];
    }
  }

  /** The clock never runs backwards. */
  ghost predicate Increases(clock: seq<int>) {
    forall i, j :: 0 <= i < j < |clock| ==> clock[i] <= clock[j]
  }

  lemma StepBackReads(limit: nat, key: Key, clock: seq<int>, i: nat, j: nat) returns (at: seq<nat>)
    requires i < j < |clock|
    ensures Reads(StepBack(key, limit, clock[i], clock[j]), clock, at)
  {
    BurstIs(key, clock[i], limit);
    at := seq(limit, n => i) + [j];
  }

  /** Limiter and counter agree on every run that reads a clock exactly if the clock never runs backwards. */
  lemma AgreesExactly(limit: nat, window: int, clock: seq<int>)
    requires limit >= 1 && window > 0
    ensures (forall calls, at :: Reads(calls, clock, at) ==> Agrees(limit, window, calls)) <==> Increases(clock)
  {
    if Increases(clock) {
      forall calls, at | Reads(calls, clock, at) ensures Agrees(limit, window, calls) {
        ReadsForward(calls, clock, at);
        SameAdmissions(limit, window, calls);
      }
    } else {
      var i, j :| 0 <= i < j < |clock| && clock[j] < clock[i];
      var at := StepBackReads(limit, 0, clock, i, j);
      var calls := StepBack(0, limit, clock[i], clock[j]);
      StepBackDisagrees(limit, window, 0, clock[i], clock[j]);
      BurstIs(0, clock[i], limit);
      assert |Run(limit, window, calls).admitted| < |CountedRun(limit, window, calls)|;
    }
  }
}
