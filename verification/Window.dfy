/**
 The limit on inbound handshakes (src/event_loop.c:895-913, 951): five per window of sixty seconds.
 */
module Window {
  const PERIOD: int := 60
  const LIMIT: nat := 5

  datatype Window = Window(start: int, count: nat)

  /** A connection at this time; setup says whether what lies between the check and the count succeeds. */
  datatype Arrival = Arrival(now: int, setup: bool)

  /** A new window once the old one is sixty seconds old. */
  function Refresh(w: Window, now: int): (w': Window) {
    if now - w.start >= PERIOD then Window(now, 0) else w
  }

  predicate Admitted(w: Window, a: Arrival) {
    Refresh(w, a.now).count < LIMIT && a.setup
  }

  function Step(w: Window, a: Arrival): (w': Window) {
    var v := Refresh(w, a.now);
    if Admitted(w, a) then v.(count := v.count + 1) else v
  }

  /** A handshake that was started, and in which window. */
  datatype Start = Start(time: int, window: int)

  function Starts(w: Window, arrivals: seq<Arrival>): (log: seq<Start>)
    decreases |arrivals|
  {
    if arrivals == [] then []
    else
      var a, v := arrivals[0], Step(w, arrivals[0]);
      (if Admitted(w, a) then [Start(a.now, v.start)] else []) + Starts(v, arrivals[1..])
  }

  /** The clock does not go back. */
  ghost predicate Clock(arrivals: seq<Arrival>, last: int) {
    arrivals == [] || (last <= arrivals[0].now && Clock(arrivals[1..], arrivals[0].now))
  }

  // ----- counting -----

  function InWindow(log: seq<Start>, s: int): (n: nat) {
    if log == [] then 0 else (if log[0].window == s then 1 else 0) + InWindow(log[1..], s)
  }

  function Between(log: seq<Start>, from: int, until: int): (n: nat) {
    if log == [] then 0 else (if from <= log[0].time < until then 1 else 0) + Between(log[1..], from, until)
  }

  /** How many more starts window s can see. */
  function RoomInWindow(w: Window, s: int): (n: nat)
    requires w.count <= LIMIT
  {
    if w.start == s then LIMIT - w.count else if w.start > s then 0 else LIMIT
  }

  lemma {:induction false} WindowBound(w: Window, arrivals: seq<Arrival>, last: int, s: int)
    requires w.count <= LIMIT && w.start <= last && Clock(arrivals, last)
    ensures InWindow(Starts(w, arrivals), s) <= RoomInWindow(w, s)
    decreases |arrivals|
  {
    if arrivals != [] {
      var v := Step(w, arrivals[0]);
      WindowBound(v, arrivals[1..], arrivals[0].now, s);
      assert if Admitted(w, arrivals[0]) then Starts(w, arrivals)[1..] == Starts(v, arrivals[1..])
             else Starts(w, arrivals) == Starts(v, arrivals[1..]);
    }
  }

  /** How many more starts the sixty seconds from t on can see. */
  function RoomFrom(w: Window, last: int, t: int): (n: nat)
    requires w.count <= LIMIT
  {
    if w.start >= t + PERIOD then 0
    else if w.start >= t then LIMIT - w.count
    else if last >= t then 2 * LIMIT - w.count
    else 2 * LIMIT
  }

  lemma {:induction false} IntervalBound(w: Window, arrivals: seq<Arrival>, last: int, t: int)
    requires w.count <= LIMIT && w.start <= last && Clock(arrivals, last)
    ensures Between(Starts(w, arrivals), t, t + PERIOD) <= RoomFrom(w, last, t)
    decreases |arrivals|
  {
    if arrivals != [] {
      var v := Step(w, arrivals[0]);
      IntervalBound(v, arrivals[1..], arrivals[0].now, t);
      assert if Admitted(w, arrivals[0]) then Starts(w, arrivals)[1..] == Starts(v, arrivals[1..])
             else Starts(w, arrivals) == Starts(v, arrivals[1..]);
    }
  }

  /** In every run with a clock that does not go back: at most five handshakes start in one window, and at most ten in
      any sixty seconds. */
  lemma AtMostTen(w: Window, arrivals: seq<Arrival>, s: int, t: int)
    requires w.count <= LIMIT && Clock(arrivals, w.start)
    ensures InWindow(Starts(w, arrivals), s) <= LIMIT
    ensures Between(Starts(w, arrivals), t, t + PERIOD) <= 2 * LIMIT
  {
    WindowBound(w, arrivals, w.start, s);
    IntervalBound(w, arrivals, w.start, t);
  }

  lemma {:induction false} LaterWindows(w: Window, arrivals: seq<Arrival>, last: int, j: nat)
    requires w.start <= last && Clock(arrivals, last) && j < |Starts(w, arrivals)|
    ensures var s := Starts(w, arrivals)[j];
            && s.window <= s.time < s.window + PERIOD && last <= s.time
            && (s.window == w.start || w.start + PERIOD <= s.window)
    decreases |arrivals|
  {
    var a, v := arrivals[0], Step(w, arrivals[0]);
    var first := if Admitted(w, a) then 1 else 0;
    if j >= first {
      assert Starts(w, arrivals)[j] == Starts(v, arrivals[1..])[j - first];
      LaterWindows(v, arrivals[1..], a.now, j - first);
    }
  }

  /** Each handshake lies within its window, and two different windows begin at least sixty seconds apart. */
  lemma {:induction false} WindowsApart(w: Window, arrivals: seq<Arrival>, last: int, i: nat, j: nat)
    requires w.start <= last && Clock(arrivals, last) && i < j < |Starts(w, arrivals)|
    ensures var a, b := Starts(w, arrivals)[i], Starts(w, arrivals)[j];
            && a.window <= a.time < a.window + PERIOD && a.time <= b.time
            && (a.window == b.window || a.window + PERIOD <= b.window)
    decreases |arrivals|
  {
    var a, v := arrivals[0], Step(w, arrivals[0]);
    var first := if Admitted(w, a) then 1 else 0;
    var log, rest := Starts(w, arrivals), Starts(v, arrivals[1..]);
    assert log[j] == rest[j - first];
    LaterWindows(w, arrivals, last, i);
    if i >= first {
      assert log[i] == rest[i - first];
      WindowsApart(v, arrivals[1..], a.now, i - first, j - first);
    } else {
      LaterWindows(v, arrivals[1..], a.now, j - first);
    }
  }

  /** n arrivals at the same time, all set up. */
  function Burst(now: int, n: nat): (arrivals: seq<Arrival>)
    ensures |arrivals| == n
  {
    if n == 0 then [] else [Arrival(now, true)] + Burst(now, n - 1)
  }

  lemma {:induction false} BurstStarts(w: Window, now: int, n: nat, rest: seq<Arrival>)
    requires now - w.start < PERIOD && w.count + n <= LIMIT
    ensures Between(Starts(w, Burst(now, n) + rest), now, now + PERIOD) ==
            n + Between(Starts(w.(count := w.count + n), rest), now, now + PERIOD)
    decreases n
  {
    var all := Burst(now, n) + rest;
    if n == 0 {
      assert all == rest;
    } else {
      assert all[0] == Arrival(now, true) && all[1..] == Burst(now, n - 1) + rest;
      var v := w.(count := w.count + 1);
      BurstStarts(v, now, n - 1, rest);
      assert Starts(w, all)[0] == Start(now, w.start) && Starts(w, all)[1..] == Starts(v, all[1..]);
    }
  }

  lemma {:induction false} AllCounted(w: Window, now: int, n: nat, t: int)
    requires now - w.start < PERIOD && w.count + n <= LIMIT && t <= now < t + PERIOD
    ensures Between(Starts(w, Burst(now, n)), t, t + PERIOD) == n
    decreases n
  {
    if n > 0 {
      var all := Burst(now, n);
      var v := w.(count := w.count + 1);
      AllCounted(v, now, n - 1, t);
      assert all[1..] == Burst(now, n - 1);
      assert Starts(w, all)[0] == Start(now, w.start) && Starts(w, all)[1..] == Starts(v, all[1..]);
    }
  }

  lemma {:induction false} BurstClock(now: int, n: nat, rest: seq<Arrival>, last: int)
    requires last <= now && Clock(rest, now)
    ensures Clock(Burst(now, n) + rest, last)
    decreases n
  {
    var all := Burst(now, n) + rest;
    if n == 0 {
      assert all == rest;
    } else {
      assert all[0] == Arrival(now, true) && all[1..] == Burst(now, n - 1) + rest;
      BurstClock(now, n - 1, rest, now);
    }
  }

  /** Ten is reached: five at the end of one window and five at the start of the next, one second later. */
  lemma TenIsReached()
    ensures var arrivals := Burst(59, 5) + Burst(60, 5);
            Clock(arrivals, 0) && Between(Starts(Window(0, 0), arrivals), 59, 59 + PERIOD) == 2 * LIMIT
  {
    var late := Burst(60, 5);
    assert late + [] == late;
    BurstClock(60, 5, [], 59);
    BurstClock(59, 5, late, 0);
    BurstStarts(Window(0, 0), 59, 5, late);
    var v := Window(60, 1);
    assert late[0] == Arrival(60, true) && late[1..] == Burst(60, 4);
    AllCounted(v, 60, 4, 59);
    assert Starts(Window(0, 5), late)[0] == Start(60, 60) && Starts(Window(0, 5), late)[1..] == Starts(v, late[1..]);
  }

  /** The two counters of the program's state. */
  class InboundLimiter {
    var windowStart: int
    var count: nat

    constructor ()
      ensures Window(windowStart, count) == Window(0, 0)
    {
      windowStart, count := 0, 0;
    }

    method Accept(a: Arrival) returns (started: bool)
      modifies this
      ensures Window(windowStart, count) == Step(Window(old(windowStart), old(count)), a)
      ensures started == Admitted(Window(old(windowStart), old(count)), a)
    {
      if a.now - windowStart >= PERIOD {
        count := 0;
        windowStart := a.now;
      }
      if count >= LIMIT { return false; }
      if !a.setup { return false; }
      count := count + 1;
      return true;
    }
  }
}
