/**
The fixed-window limiter of runtime_attestation.go. Times are nanoseconds since Go's zero time, so a real
clock reads above zero; LIMIT calls are let through per window.
*/
module Limiter {

  const WINDOW := 60_000_000_000
  const LIMIT := 120

  datatype State = State(started: int, count: int)

  const FRESH := State(0, 0)

  predicate IsState(w: State) { 0 <= w.count <= LIMIT && (w.started > 0 ==> w.count > 0) && w.started >= 0 }

  predicate IsOver(w: State, now: int) { w.started == 0 || now - w.started >= WINDOW }

  /** One call: the window after it, and whether it is let through. */
  function Allowed(w: State, now: int): (State, bool) {
    var w' := if IsOver(w, now) then State(now, 0) else w;
    if w'.count >= LIMIT then (w', false) else (w'.(count := w'.count + 1), true)
  }

  class RuntimeAttestationLimiter {
    var started: int
    var count: int

    ghost function Window(): State
      reads this
    {
      State(started, count)
    }

    ghost predicate Valid()
      reads this
    {
      IsState(Window())
    }

    constructor ()
      ensures Valid() && Window() == FRESH
    {
      started, count := 0, 0;
    }

    /** allow. The first call, and one a minute or more after the window began, opens a window of its own; any
        other joins the window, unless 120 calls are in it already: then it is refused and changes nothing. */
    method Allow(now: int) returns (ok: bool)
      requires Valid() && now > 0
      modifies this
      ensures Valid() && (Window(), ok) == Allowed(old(Window()), now)
      ensures ok <==> old(started) == 0 || now - old(started) >= 60_000_000_000 || old(count) < 120
      ensures (started, count) == if !ok then (old(started), old(count))
                                  else if old(started) == 0 || now - old(started) >= 60_000_000_000 then (now, 1)
                                  else (old(started), old(count) + 1)
    {
      if started == 0 || now - started >= WINDOW { started, count := now, 0; }
      if count >= LIMIT { return false; }
      count := count + 1;
      return true;
    }
  }

  // ----- runs of calls -----

  function After(w: State, ts: seq<int>): State
    decreases |ts|
  {
    if ts == [] then w else After(Allowed(w, ts[0]).0, ts[1..])
  }

  /** How many of the calls are let through. */
  function Taken(w: State, ts: seq<int>): nat
    decreases |ts|
  {
    if ts == [] then 0 else (if Allowed(w, ts[0]).1 then 1 else 0) + Taken(Allowed(w, ts[0]).0, ts[1..])
  }

  /** How many of the calls made at a time in [a, b) are let through. */
  function TakenIn(w: State, ts: seq<int>, a: int, b: int): nat
    decreases |ts|
  {
    if ts == [] then 0
    else (if Allowed(w, ts[0]).1 && a <= ts[0] < b then 1 else 0) + TakenIn(Allowed(w, ts[0]).0, ts[1..], a, b)
  }

  /** Call times that never go back. */
  ghost predicate IsRun(ts: seq<int>) {
    (forall i :: 0 <= i < |ts| ==> ts[i] > 0) && forall i, j :: 0 <= i < j < |ts| ==> ts[i] <= ts[j]
  }

  // ----- the bound -----

  /** ceil(length / WINDOW), and 0 for what is not positive. */
  function Windows(length: int): nat { if length <= 0 then 0 else (length + WINDOW - 1) / WINDOW }

  lemma WindowsStep(x: int, y: int)
    requires x > 0
    ensures Windows(x) == 1 + Windows(x - WINDOW)
    ensures x <= y ==> Windows(x) <= Windows(y)
  {
    assert (x + WINDOW - 1) / WINDOW == 1 + (x - 1) / WINDOW;
  }

  lemma WindowsMonotone(x: int, y: int)
    requires x <= y
    ensures Windows(x) <= Windows(y)
  {
    if x > 0 { WindowsStep(x, y); }
  }

  /** What a window already begun can still let through before time b, later windows included. */
  function Room(w: State, b: int): int { LIMIT - w.count + LIMIT * Windows(b - w.started - WINDOW) }

  lemma {:induction false} NothingLate(w: State, ts: seq<int>, a: int, b: int)
    requires IsRun(ts) && ts != [] && ts[0] >= b
    ensures TakenIn(w, ts, a, b) == 0
    decreases |ts|
  {
    if |ts| > 1 { NothingLate(Allowed(w, ts[0]).0, ts[1..], a, b); }
  }

  lemma {:induction false} RoomBounds(w: State, ts: seq<int>, a: int, b: int)
    requires IsState(w) && w.started > 0 && IsRun(ts)
    ensures TakenIn(w, ts, a, b) <= Room(w, b)
    decreases |ts|
  {
    if ts != [] {
      var t := ts[0];
      if t >= b {
        NothingLate(w, ts, a, b);
      } else {
        var (w', ok) := Allowed(w, t);
        RoomBounds(w', ts[1..], a, b);
        if IsOver(w, t) {
          WindowsStep(b - t, b - t);
          WindowsMonotone(b - t, b - w.started - WINDOW);
        }
      }
    }
  }

  /** The most that any interval of that length can see. */
  function Bound(length: int): int {
    var straddling, aligned := LIMIT - 1 + LIMIT * Windows(length - 1), LIMIT * Windows(length);
    if straddling > aligned then straddling else aligned
  }

  lemma {:induction false} IntervalBound(w: State, ts: seq<int>, a: int, b: int)
    requires IsState(w) && IsRun(ts) && a < b
    ensures TakenIn(w, ts, a, b) <= Bound(b - a)
    decreases |ts|
  {
    if ts != [] {
      var t := ts[0];
      var (w', ok) := Allowed(w, t);
      if t < a {
        IntervalBound(w', ts[1..], a, b);
      } else if t >= b {
        NothingLate(w, ts, a, b);
      } else if IsOver(w, t) {
        RoomBounds(w', ts[1..], a, b);
        WindowsStep(b - t, b - a);
      } else {
        RoomBounds(w, ts, a, b);
        WindowsMonotone(b - w.started - WINDOW, b - a - 1);
      }
    }
  }

  /** The limiter's promise: any half-open interval sees at most Bound(length) accepted calls, and so no more
      than 120 times one more than its length in minutes, rounded up; for one minute it is 239. */
  lemma AnyIntervalIsBounded(ts: seq<int>, a: int, b: int)
    requires IsRun(ts) && a < b
    ensures TakenIn(FRESH, ts, a, b) <= Bound(b - a)
    ensures TakenIn(FRESH, ts, a, b) <= 120 * (1 + (b - a + 59_999_999_999) / 60_000_000_000)
    ensures b - a == 60_000_000_000 ==> TakenIn(FRESH, ts, a, b) <= 239
  {
    IntervalBound(FRESH, ts, a, b);
    WindowsMonotone(b - a - 1, b - a);
  }

  // ----- the bound is attained -----

  function Burst(t: int, n: nat): seq<int> { seq(n, _ => t) }

  /** `k` full bursts, a window apart. */
  function Bursts(t: int, k: nat): seq<int>
    decreases k
  {
    if k == 0 then [] else Burst(t, LIMIT) + Bursts(t + WINDOW, k - 1)
  }

  lemma {:induction false} TakenInJoins(w: State, xs: seq<int>, ys: seq<int>, a: int, b: int)
    ensures TakenIn(w, xs + ys, a, b) == TakenIn(w, xs, a, b) + TakenIn(After(w, xs), ys, a, b)
    ensures After(w, xs + ys) == After(After(w, xs), ys)
    decreases |xs|
  {
    if xs == [] {
      assert xs + ys == ys;
    } else {
      assert (xs + ys)[1..] == xs[1..] + ys;
      TakenInJoins(Allowed(w, xs[0]).0, xs[1..], ys, a, b);
    }
  }

  lemma {:induction false} BurstFits(w: State, t: int, n: nat, a: int, b: int)
    requires IsState(w) && !IsOver(w, t) && w.count + n <= LIMIT
    ensures After(w, Burst(t, n)) == w.(count := w.count + n)
    ensures TakenIn(w, Burst(t, n), a, b) == if a <= t < b then n else 0
    decreases n
  {
    if n > 0 {
      assert Burst(t, n)[1..] == Burst(t, n - 1);
      BurstFits(w.(count := w.count + 1), t, n - 1, a, b);
    }
  }

  lemma BurstOpens(w: State, t: int, n: nat, a: int, b: int)
    requires IsOver(w, t) && t > 0 && 0 < n <= LIMIT
    ensures After(w, Burst(t, n)) == State(t, n)
    ensures TakenIn(w, Burst(t, n), a, b) == if a <= t < b then n else 0
  {
    assert Burst(t, n)[1..] == Burst(t, n - 1);
    BurstFits(State(t, 1), t, n - 1, a, b);
  }

  lemma {:induction false} BurstsTaken(w: State, t: int, k: nat, a: int, b: int)
    requires IsOver(w, t) && 0 < t && a <= t && k == Windows(b - t)
    ensures TakenIn(w, Bursts(t, k), a, b) == LIMIT * k
    ensures IsRun(Bursts(t, k)) && forall i :: 0 <= i < |Bursts(t, k)| ==> Bursts(t, k)[i] >= t
    decreases k
  {
    if k > 0 {
      WindowsStep(b - t, b - t);
      BurstOpens(w, t, LIMIT, a, b);
      BurstsTaken(State(t, LIMIT), t + WINDOW, k - 1, a, b);
      TakenInJoins(w, Burst(t, LIMIT), Bursts(t + WINDOW, k - 1), a, b);
    }
  }

  /** No interval length has a smaller bound: some run of calls reaches it, in one minute the 239. */
  lemma BoundIsAttained(a: int, b: int) returns (ts: seq<int>)
    requires 60_000_000_000 <= a < b
    ensures IsRun(ts) && TakenIn(FRESH, ts, a, b) == Bound(b - a)
    ensures b - a == 60_000_000_000 ==> TakenIn(FRESH, ts, a, b) == 239
  {
    if Bound(b - a) == LIMIT * Windows(b - a) {
      ts := Bursts(a, Windows(b - a));
      BurstsTaken(FRESH, a, Windows(b - a), a, b);
    } else {
      var s, k := a + 1 - WINDOW, Windows(b - a - 1);
      var head := Burst(s, 1) + Burst(a, LIMIT - 1);
      ts := head + Bursts(a + 1, k);
      BurstOpens(FRESH, s, 1, a, b);
      BurstFits(State(s, 1), a, LIMIT - 1, a, b);
      TakenInJoins(FRESH, Burst(s, 1), Burst(a, LIMIT - 1), a, b);
      BurstsTaken(State(s, LIMIT), a + 1, k, a, b);
      TakenInJoins(FRESH, head, Bursts(a + 1, k), a, b);
    }
  }

  // ----- refusals -----

  lemma {:induction false} WindowCounts(w: State, ts: seq<int>)
    ensures var w' := After(w, ts);
            || (w'.started == w.started && w'.count == w.count + Taken(w, ts))
            || exists k :: 0 <= k < |ts| && ts[k] == w'.started && IsOver(After(w, ts[..k]), ts[k])
                 && w'.count == Taken(After(w, ts[..k]), ts[k..])
    decreases |ts|
  {
    if ts != [] {
      var w1 := Allowed(w, ts[0]).0;
      WindowCounts(w1, ts[1..]);
      var w' := After(w, ts);
      if w'.started == w1.started && w'.count == w1.count + Taken(w1, ts[1..]) {
        if IsOver(w, ts[0]) { assert ts[..0] == [] && ts[0..] == ts; }
      } else {
        var k :| 0 <= k < |ts[1..]| && ts[1..][k] == w'.started && IsOver(After(w1, ts[1..][..k]), ts[1..][k])
                 && w'.count == Taken(After(w1, ts[1..][..k]), ts[1..][k..]);
        assert ts[..k + 1][1..] == ts[1..][..k] && ts[1..][k..] == ts[k + 1..];
        assert After(w, ts[..k + 1]) == After(w1, ts[1..][..k]);
      }
    }
  }

  /** A refusal happens only when the earlier call that opened the current window lies less than a minute
      back, and exactly 120 calls have been let through from that call on. */
  lemma RefusedOnlyWhenFull(ts: seq<int>, now: int)
    requires !Allowed(After(FRESH, ts), now).1
    ensures exists k :: 0 <= k < |ts| && ts[k] > now - 60_000_000_000 && IsOver(After(FRESH, ts[..k]), ts[k])
              && Taken(After(FRESH, ts[..k]), ts[k..]) == 120
  {
    hide After, Taken;
    CountStaysInRange(FRESH, ts);
    WindowCounts(FRESH, ts);
  }

  lemma {:induction false} CountStaysInRange(w: State, ts: seq<int>)
    requires 0 <= w.count <= LIMIT
    ensures 0 <= After(w, ts).count <= LIMIT
    decreases |ts|
  {
    if ts != [] { CountStaysInRange(Allowed(w, ts[0]).0, ts[1..]); }
  }
}
