/**
 The caching budget (linux/raofflineproxy/cache_budget.py): a fixed window that opens with its
 first charge. Times are epoch milliseconds.
 */
module CacheBudget {
  import opened Bytes

  const LIMIT := 100
  const WINDOW_MS := 1_800_000
  const BURST_GAMES := 20
  const PACE_MS := WINDOW_MS / LIMIT
  const BATCH_MAX_MS := WINDOW_MS

  datatype BudgetWindow = BudgetWindow(windowStart: int, used: int, pausedUntil: int) {
    /** A clock that went back also starts a new window. */
    function Current(now: int): BudgetWindow {
      if now < windowStart || now - windowStart >= WINDOW_MS then BudgetWindow(now, 0, pausedUntil) else this
    }

    function Charge(now: int, games: int): BudgetWindow {
      var window := Current(now);
      window.(used := window.used + games)
    }

    function Remaining(now: int): int {
      if now < pausedUntil then 0 else Max(0, LIMIT - Current(now).used)
    }
  }

  /** What `from_json` makes of a missing entry. */
  const FRESH := BudgetWindow(0, 0, 0)

  /** A game that was charged, and when the budget was last found not to be used up before. */
  datatype Charged = Charged(checkedAt: int, at: int)

  /** The window after these charges. */
  function Replay(log: seq<Charged>): BudgetWindow {
    if log == [] then FRESH else Replay(log[..|log| - 1]).Charge(log[|log| - 1].at, 1)
  }

  function LastAt(log: seq<Charged>): int {
    if log == [] then 0 else log[|log| - 1].at
  }

  /** The clock never goes back and every charge was preceded by a check that left room. */
  predicate Legal(log: seq<Charged>) {
    log != [] ==>
      var front, last := log[..|log| - 1], log[|log| - 1];
      && Legal(front)
      && LastAt(front) <= last.checkedAt <= last.at
      && Replay(front).Current(last.checkedAt).used < LIMIT
  }

  /** Nothing is left exactly while a pause lasts or the window is used up; a window that is over, or lies
      ahead of the clock, counts as unused. */
  lemma NothingLeftExactly(window: BudgetWindow, now: int)
    ensures window.Remaining(now) >= 0
    ensures window.Remaining(now) == 0 <==>
      now < window.pausedUntil
      || (window.windowStart <= now < window.windowStart + 30 * 60 * 1000 && window.used >= 100)
    ensures now >= window.pausedUntil && !(window.windowStart <= now < window.windowStart + 30 * 60 * 1000) ==>
      window.Remaining(now) == 100
  {
  }

  lemma {:induction false} UsedWithinLimit(log: seq<Charged>)
    requires Legal(log)
    ensures 0 <= Replay(log).used <= LIMIT && 0 <= Replay(log).windowStart
    ensures log != [] ==> Replay(log).windowStart <= LastAt(log) < Replay(log).windowStart + WINDOW_MS
    ensures log != [] ==> 1 <= Replay(log).used
    ensures 0 <= LastAt(log)
  {
    if log != [] {
      UsedWithinLimit(log[..|log| - 1]);
    }
  }

  /** Games charged in the half-open interval of one window length from `t`. */
  function ChargedFrom(log: seq<Charged>, t: int): nat {
    if log == [] then 0
    else
      ChargedFrom(log[..|log| - 1], t) + if t <= log[|log| - 1].at < t + WINDOW_MS then 1 else 0
  }

  lemma {:induction false} NoneBefore(log: seq<Charged>, t: int)
    requires Legal(log) && (log == [] || LastAt(log) < t)
    ensures ChargedFrom(log, t) == 0
  {
    if log != [] {
      NoneBefore(log[..|log| - 1], t);
    }
  }

  /** A first charge at this time opens a window of its own: an unset window counts as opened at 0. */
  predicate OpensWindow(first: int) {
    first == 0 || first >= WINDOW_MS
  }

  predicate OwnWindows(log: seq<Charged>) {
    log == [] || OpensWindow(log[0].at)
  }

  /** The most an interval can hold besides the games of one whole window. */
  function Slack(log: seq<Charged>): int {
    if OwnWindows(log) then LIMIT - 1 else LIMIT
  }

  /** Where the current window lies relative to the interval decides how much it can hold. */
  lemma {:induction false} IntervalBound(log: seq<Charged>, t: int)
    requires Legal(log)
    ensures var w := Replay(log);
      && (w.windowStart <= t ==> ChargedFrom(log, t) <= w.used)
      && (w.windowStart < t && OwnWindows(log) ==> ChargedFrom(log, t) <= Max(0, w.used - 1))
      && (t < w.windowStart < t + WINDOW_MS ==> ChargedFrom(log, t) <= Slack(log) + w.used)
      && (t + WINDOW_MS <= w.windowStart ==> ChargedFrom(log, t) <= Slack(log) + LIMIT)
  {
    if log != [] {
      var front, last := log[..|log| - 1], log[|log| - 1];
      IntervalBound(front, t);
      UsedWithinLimit(front);
      UsedWithinLimit(log);
      if front != [] {
        assert front[0] == log[0];
      }
      if last.at <= t && Replay(log).windowStart == last.at && LastAt(front) < last.at {
        NoneBefore(front, t);
      }
    }
  }

  /** At most 199 games in any 30 minutes, or 200 if the first charge did not open its window. */
  lemma AtMost199(log: seq<Charged>, t: int)
    requires Legal(log)
    ensures ChargedFrom(log, t) <= 200
    ensures OwnWindows(log) ==> ChargedFrom(log, t) <= 199
  {
    IntervalBound(log, t);
    UsedWithinLimit(log);
  }

  // 200 is reached from every other first charge.

  function Repeat(at: int, n: nat): (log: seq<Charged>)
    ensures |log| == n
  {
    if n == 0 then [] else Repeat(at, n - 1) + [Charged(at, at)]
  }

  lemma {:induction false} EarlyCharges(at: int, n: nat)
    requires n <= LIMIT && 0 < at < WINDOW_MS
    ensures Legal(Repeat(at, n)) && Replay(Repeat(at, n)) == BudgetWindow(0, n, 0)
    ensures ChargedFrom(Repeat(at, n), at) == n && LastAt(Repeat(at, n)) <= at
  {
    if n > 0 {
      EarlyCharges(at, n - 1);
      assert Repeat(at, n)[..n - 1] == Repeat(at, n - 1);
    }
  }

  lemma {:induction false} LaterCharges(early: seq<Charged>, at: int, n: nat)
    requires n <= LIMIT && 0 < at < WINDOW_MS
    requires Legal(early) && LastAt(early) <= at && Replay(early) == BudgetWindow(0, LIMIT, 0)
    ensures var log := early + Repeat(WINDOW_MS, n);
      && Legal(log) && Replay(log) == BudgetWindow(if n == 0 then 0 else WINDOW_MS, if n == 0 then LIMIT else n, 0)
      && ChargedFrom(log, at) == ChargedFrom(early, at) + n && LastAt(log) <= WINDOW_MS
  {
    var log := early + Repeat(WINDOW_MS, n);
    if n == 0 {
      assert log == early;
    } else {
      LaterCharges(early, at, n - 1);
      assert log[..|log| - 1] == early + Repeat(WINDOW_MS, n - 1);
    }
  }

  lemma {:induction false} FirstOfRepeat(at: int, n: nat)
    requires n > 0
    ensures Repeat(at, n)[0] == Charged(at, at)
  {
    if n > 1 {
      FirstOfRepeat(at, n - 1);
    }
  }

  /** A first charge at `first`, 99 more then, and 100 when the window that began at 0 is over. */
  lemma TwoHundredNearEpoch(first: int)
    requires 0 < first < WINDOW_MS
    ensures exists log: seq<Charged> ::
      Legal(log) && log != [] && log[0].at == first && ChargedFrom(log, first) == 200
  {
    var limit: nat :| limit == LIMIT;
    EarlyCharges(first, limit);
    LaterCharges(Repeat(first, limit), first, limit);
    FirstOfRepeat(first, limit);
    var log := Repeat(first, limit) + Repeat(WINDOW_MS, limit);
    assert log[0] == Charged(first, first);
  }

  /** Every run whose first charge is at `first` keeps 30 minutes to 199 games. */
  ghost predicate KeepsTo199(first: int) {
    forall log: seq<Charged>, t :: Legal(log) && log != [] && log[0].at == first ==> ChargedFrom(log, t) <= 199
  }

  /** Exactly the first charges strictly between the epoch and 30 minutes after it allow more. */
  lemma KeepsTo199Exactly(first: int)
    requires first >= 0
    ensures KeepsTo199(first) <==> OpensWindow(first)
  {
    if OpensWindow(first) {
      forall log: seq<Charged>, t | Legal(log) && log != [] && log[0].at == first
        ensures ChargedFrom(log, t) <= 199
      {
        AtMost199(log, t);
      }
    } else {
      TwoHundredNearEpoch(first);
    }
  }
}
