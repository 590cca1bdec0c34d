/**
 Usage counters that several processes count in memory and merge into one file, and the report
 that sends them (linux/raofflineproxy/usage_stats.py and usage_report.py).
 */
module UsageStats {
  import opened Bytes

  type Counters = map<string, int>

  const LAST_REPORTED_AT := "last_reported_at"
  const DAY_MS := 86_400_000
  const WINDOW_MS := 1_800_000
  const MAX_REQUESTS_PER_WINDOW := "max_requests_per_window"

  /** `key.startswith("max_")` */
  predicate IsMax(key: string): (r: bool)
    ensures r <==> |key| >= 4 && key[..4] == "max_"
  {
    "max_" <= key
  }

  /** Counters that are added up. */
  predicate Additive(key: string) {
    !IsMax(key) && key != LAST_REPORTED_AT
  }

  function Value(c: Counters, key: string): int {
    if key in c then c[key] else 0
  }

  function MergeCounters(stored: Counters, pending: Counters): Counters {
    stored + map k | k in pending ::
      if IsMax(k) then Max(Value(stored, k), pending[k]) else Value(stored, k) + pending[k]
  }

  function Reportable(stored: Counters): Counters {
    map k | k in stored && k != LAST_REPORTED_AT && stored[k] > 0 :: stored[k]
  }

  function Left(stored: Counters, reported: Counters, key: string): int
    requires key in stored
  {
    if IsMax(key) && key in reported then 0 else stored[key] - Value(reported, key)
  }

  function AfterReport(stored: Counters, reported: Counters, reportedAt: int): Counters {
    (map k | k in stored && k != LAST_REPORTED_AT && Left(stored, reported, k) > 0 :: Left(stored, reported, k))
    [LAST_REPORTED_AT := reportedAt]
  }

  /** One report per UTC day; a clock on another day counts as a new day. */
  predicate IsReportDue(lastReportedAt: int, now: int) {
    lastReportedAt <= 0 || lastReportedAt / DAY_MS != now / DAY_MS
  }

  /** `PendingCounters`: what one process has counted since its last flush. */
  class PendingCounters {
    var values: Counters
    var windowStart: Option<int>
    var windowRequests: int

    constructor ()
      ensures values == map[] && windowStart.None? && windowRequests == 0
    {
      values, windowStart, windowRequests := map[], None, 0;
    }

    /** `add`: nothing is stored for zero. */
    method Add(key: string, amount: int)
      modifies `values
      ensures forall k :: Value(values, k) == Value(old(values), k) + if k == key then amount else 0
      ensures amount == 0 ==> values == old(values)
    {
      if amount != 0 {
        values := values[key := Value(values, key) + amount];
      }
    }

    /** `record_request`: one request, and at most one failure of the kind the status says. */
    method RecordRequest(source: string, status: Option<int>, now: int)
      modifies this
      ensures forall k :: Additive(k) ==>
        Value(values, k) == Value(old(values), k)
          + (if k == "requests_" + source then 1 else 0)
          + (if k == "failures_network" && status.None? then 1 else 0)
          + (if k == "rate_limited" && status == Some(429) then 1 else 0)
          + (if k == "failures_server" && status.Some? && status.value >= 500 then 1 else 0)
      ensures Value(values, MAX_REQUESTS_PER_WINDOW) == Max(Value(old(values), MAX_REQUESTS_PER_WINDOW), windowRequests)
      ensures var same := old(windowStart).Some? && 0 <= now - old(windowStart).value < 30 * 60 * 1000;
        && windowRequests == (if same then old(windowRequests) + 1 else 1)
        && windowStart == if same then old(windowStart) else Some(now)
    {
      FailureKeysDiffer();
      NotMax("requests_" + source);
      Add("requests_" + source, 1);
      if SameWindow(windowStart, now) {
        windowRequests := windowRequests + 1;
      } else {
        windowStart, windowRequests := Some(now), 1;
      }
      values := values[MAX_REQUESTS_PER_WINDOW := Max(Value(values, MAX_REQUESTS_PER_WINDOW), windowRequests)];
      var failure := FailureKey(status);
      if failure.Some? {
        Add(failure.value, 1);
      }
    }

    /** `take` */
    method Take() returns (taken: Counters)
      modifies `values
      ensures taken == old(values) && values == map[]
    {
      taken := values;
      values := map[];
    }
  }

  predicate SameWindow(start: Option<int>, now: int) {
    start.Some? && start.value <= now < start.value + WINDOW_MS
  }

  lemma NotMax(key: string)
    requires key != "" && key[0] != 'm' && key[0] != 'l'
    ensures Additive(key)
  {
    assert "max_"[0] == 'm' && LAST_REPORTED_AT[0] == 'l';
  }

  lemma FailureKeysDiffer()
    ensures "failures_network" != "rate_limited" && "failures_network" != "failures_server"
    ensures "rate_limited" != "failures_server"
  {
    assert "failures_network"[9] == 'n' && "failures_server"[9] == 's' && "rate_limited"[0] == 'r';
  }

  function FailureKey(status: Option<int>): (r: Option<string>)
    ensures r.Some? ==> Additive(r.value)
  {
    NotMax("failures_network");
    NotMax("rate_limited");
    NotMax("failures_server");
    match status
    case None => Some("failures_network")
    case Some(code) =>
      if code == 429 then Some("rate_limited") else if code >= 500 then Some("failures_server") else None
  }

  // All processes together.

  /** A report under the report lock; `counters` are what it sends once it has its snapshot. */
  datatype Report = Report(process: nat, now: int, counters: Option<Counters>, accepted: bool)

  /**
   Process `p` has `pending[p]` in memory, `flight[p]` taken out but not merged yet, and has read
   the time `calledAt[p]` for its next report. `recorded` and `committed` count, per key, what was
   ever recorded and what the backend accepted and the file forgot; `commits` are the times of the
   committed reports.
   */
  datatype State = State(
    pending: seq<Counters>,
    flight: seq<Counters>,
    calledAt: seq<int>,
    stored: Counters,
    report: Option<Report>,
    clock: int,
    recorded: Counters,
    committed: Counters,
    commits: seq<int>)

  datatype Action =
    | Tick(now: int)
    | Record(process: nat, key: string, amount: nat)
    | FlushTake(process: nat)
    | FlushMerge(process: nat)
    | ReportCall(process: nat)
    | ReportBegin(process: nat)
    | ReportSnapshot
    | ReportSend(accepted: bool)
    | ReportCommit

  predicate Enabled(st: State, action: Action) {
    match action
    case Tick(now) => st.clock <= now
    case Record(p, key, _) => p < |st.pending| && Additive(key)
    case FlushTake(p) => p < |st.pending| && p < |st.flight| && st.flight[p] == map[]
    case FlushMerge(p) => p < |st.flight|
    case ReportCall(p) => p < |st.calledAt|
    case ReportBegin(p) =>
      p < |st.calledAt| && st.report.None? && IsReportDue(Value(st.stored, LAST_REPORTED_AT), st.calledAt[p])
    case ReportSnapshot => st.report.Some? && st.report.value.counters.None?
    case ReportSend(_) => st.report.Some? && st.report.value.counters.Some? && !st.report.value.accepted
    case ReportCommit => st.report.Some? && st.report.value.counters.Some? && st.report.value.accepted
  }

  function Plus(c: Counters, key: string, amount: int): Counters {
    c[key := Value(c, key) + amount]
  }

  function PlusAll(c: Counters, d: Counters): Counters {
    c + map k | k in d :: Value(c, k) + d[k]
  }

  function Next(st: State, action: Action): State {
    if !Enabled(st, action) then st
    else
      match action
      case Tick(now) => st.(clock := now)
      case Record(p, key, amount) =>
        st.(pending := st.pending[p := Plus(st.pending[p], key, amount)], recorded := Plus(st.recorded, key, amount))
      case FlushTake(p) => st.(flight := st.flight[p := st.pending[p]], pending := st.pending[p := map[]])
      case FlushMerge(p) => st.(stored := MergeCounters(st.stored, st.flight[p]), flight := st.flight[p := map[]])
      case ReportCall(p) => st.(calledAt := st.calledAt[p := st.clock])
      case ReportBegin(p) => st.(report := Some(Report(p, st.calledAt[p], None, false)))
      case ReportSnapshot =>
        st.(report := Some(st.report.value.(counters := Some(Reportable(st.stored)))))
      case ReportSend(accepted) => st.(report := if accepted then Some(st.report.value.(accepted := true)) else None)
      case ReportCommit =>
        var r := st.report.value;
        st.(stored := AfterReport(st.stored, r.counters.value, r.now),
            committed := PlusAll(st.committed, r.counters.value),
            commits := st.commits + [r.now],
            report := None)
  }

  function Run(st: State, actions: seq<Action>): State
    decreases |actions|
  {
    if actions == [] then st else Run(Next(st, actions[0]), actions[1..])
  }

  function Sum(all: seq<Counters>, key: string): int {
    if all == [] then 0 else Value(all[0], key) + Sum(all[1..], key)
  }

  /** Everything recorded under a key is somewhere, once. */
  predicate Conserved(st: State, key: string) {
    Value(st.recorded, key) ==
      Sum(st.pending, key) + Sum(st.flight, key) + Value(st.stored, key) + Value(st.committed, key)
  }

  predicate NonNegative(c: Counters, key: string) {
    Value(c, key) >= 0
  }

  /** What a report is about to send is still in the file. */
  predicate Covered(st: State, key: string) {
    st.report.Some? && st.report.value.counters.Some? ==>
      0 <= Value(st.report.value.counters.value, key) <= Value(st.stored, key)
  }

  predicate KeyInv(st: State, key: string) {
    && Conserved(st, key) && Covered(st, key)
    && NonNegative(st.stored, key)
    && (forall i :: 0 <= i < |st.pending| ==> NonNegative(st.pending[i], key))
    && (forall i :: 0 <= i < |st.flight| ==> NonNegative(st.flight[i], key))
  }

  /** `n` processes and an empty file. */
  function Start(n: nat): State {
    State(seq(n, _ => map[]), seq(n, _ => map[]), seq(n, _ => 0), map[], None, 0, map[], map[], [])
  }

  lemma {:induction false} SumUpdate(all: seq<Counters>, i: nat, c: Counters, key: string)
    requires i < |all|
    ensures Sum(all[i := c], key) == Sum(all, key) - Value(all[i], key) + Value(c, key)
  {
    if i > 0 {
      assert all[i := c][1..] == all[1..][i - 1 := c];
      SumUpdate(all[1..], i - 1, c, key);
    } else {
      assert all[0 := c][1..] == all[1..];
    }
  }

  lemma {:induction false} SumOfNothing(all: seq<Counters>, key: string)
    requires forall i :: 0 <= i < |all| ==> all[i] == map[]
    ensures Sum(all, key) == 0
  {
    if all != [] {
      SumOfNothing(all[1..], key);
    }
  }

  lemma MergeAdds(stored: Counters, pending: Counters, key: string)
    requires Additive(key)
    ensures Value(MergeCounters(stored, pending), key) == Value(stored, key) + Value(pending, key)
  {
  }

  lemma CommitSubtracts(stored: Counters, reported: Counters, at: int, key: string)
    requires Additive(key) && 0 <= Value(reported, key) <= Value(stored, key)
    ensures Value(AfterReport(stored, reported, at), key) == Value(stored, key) - Value(reported, key)
  {
  }

  /** A maximum is the larger one; keys without pending counts stay. */
  lemma MergeTakesMaximum(stored: Counters, pending: Counters, key: string)
    ensures key !in pending ==> Value(MergeCounters(stored, pending), key) == Value(stored, key)
    ensures key in pending && |key| >= 4 && key[..4] == "max_" ==>
      Value(MergeCounters(stored, pending), key) == Max(Value(stored, key), pending[key])
  {
  }

  /** A report into whose time nothing is merged sends every counter and leaves an empty file but for its
      time. */
  lemma QuietReportEmpties(stored: Counters, at: int)
    ensures AfterReport(stored, Reportable(stored), at) == map[LAST_REPORTED_AT := at]
  {
    var after := AfterReport(stored, Reportable(stored), at);
    forall k | k in stored && k != LAST_REPORTED_AT
      ensures k !in after
    {
      assert stored[k] > 0 ==> k in Reportable(stored) && Reportable(stored)[k] == stored[k];
    }
    assert after.Keys == {LAST_REPORTED_AT};
  }

  /** What is merged while a report is on its way stays for the next one; of a maximum only if the report
      had none to send. */
  lemma MergedMeanwhileStays(stored: Counters, pending: Counters, at: int, key: string)
    requires key != LAST_REPORTED_AT && Value(stored, key) >= 0 && Value(pending, key) >= 0
    ensures Value(AfterReport(MergeCounters(stored, pending), Reportable(stored), at), key)
      == if IsMax(key) && Value(stored, key) > 0 then 0 else Value(pending, key)
  {
    hide IsMax;
    var merged := MergeCounters(stored, pending);
    assert key in merged <==> key in stored || key in pending;
    assert key in Reportable(stored) <==> Value(stored, key) > 0;
  }

  lemma PlusAllAdds(c: Counters, d: Counters, key: string)
    ensures Value(PlusAll(c, d), key) == Value(c, key) + Value(d, key)
  {
  }

  lemma ReportableValue(stored: Counters, key: string)
    requires Additive(key) && Value(stored, key) >= 0
    ensures 0 <= Value(Reportable(stored), key) <= Value(stored, key)
  {
  }

  lemma StepKeepsKeyInv(st: State, action: Action, key: string)
    requires Additive(key) && KeyInv(st, key)
    ensures KeyInv(Next(st, action), key)
  {
    hide IsMax, AfterReport, MergeCounters, Reportable, PlusAll, Sum;
    if Enabled(st, action) {
      match action
      case ReportSnapshot =>
        ReportableValue(st.stored, key);
      case Record(p, k, amount) =>
        SumUpdate(st.pending, p, Plus(st.pending[p], k, amount), key);
      case FlushTake(p) =>
        SumUpdate(st.pending, p, map[], key);
        SumUpdate(st.flight, p, st.pending[p], key);
      case FlushMerge(p) =>
        SumUpdate(st.flight, p, map[], key);
        MergeAdds(st.stored, st.flight[p], key);
      case ReportCommit =>
        CommitSubtracts(st.stored, st.report.value.counters.value, st.report.value.now, key);
        PlusAllAdds(st.committed, st.report.value.counters.value, key);
      case _ =>
    }
  }

  lemma {:induction false} RunKeepsKeyInv(st: State, actions: seq<Action>, key: string)
    requires Additive(key) && KeyInv(st, key)
    ensures KeyInv(Run(st, actions), key)
    decreases |actions|
  {
    hide Next, KeyInv;
    if actions != [] {
      StepKeepsKeyInv(st, actions[0], key);
      RunKeepsKeyInv(Next(st, actions[0]), actions[1..], key);
    }
  }

  /** Over every interleaving nothing recorded gets lost and nothing is reported twice. */
  lemma CountersConserved(n: nat, actions: seq<Action>, key: string)
    requires Additive(key)
    ensures Conserved(Run(Start(n), actions), key)
  {
    SumOfNothing(Start(n).pending, key);
    SumOfNothing(Start(n).flight, key);
    RunKeepsKeyInv(Start(n), actions, key);
  }

  /** How often the backend accepted a report. */
  function Accepted(actions: seq<Action>): nat {
    if actions == [] then 0 else (if actions[0] == ReportSend(true) then 1 else 0) + Accepted(actions[1..])
  }

  lemma {:induction false} RunCommitsAccepted(st: State, actions: seq<Action>)
    ensures var to := Run(st, actions);
      |to.commits| + (if to.report.Some? && to.report.value.accepted then 1 else 0)
        <= |st.commits| + (if st.report.Some? && st.report.value.accepted then 1 else 0) + Accepted(actions)
    decreases |actions|
  {
    hide MergeCounters, AfterReport, Reportable, PlusAll, IsReportDue, IsMax;
    if actions != [] {
      RunCommitsAccepted(Next(st, actions[0]), actions[1..]);
    }
  }

  /** A report is committed only after the backend has accepted it. */
  lemma CommitsWereAccepted(n: nat, actions: seq<Action>)
    ensures |Run(Start(n), actions).commits| <= Accepted(actions)
  {
    hide Run;
    RunCommitsAccepted(Start(n), actions);
  }

  // One report per day.

  predicate OnePerDay(commits: seq<int>) {
    forall i, j :: 0 <= i < j < |commits| ==> commits[i] / DAY_MS != commits[j] / DAY_MS
  }

  /** A report starts with a time not before the last one reported. */
  predicate Fresh(st: State, action: Action) {
    action.ReportBegin? && Enabled(st, action) ==>
      Value(st.stored, LAST_REPORTED_AT) <= st.calledAt[action.process] && 0 < st.calledAt[action.process]
  }

  predicate FreshRun(st: State, actions: seq<Action>)
    decreases |actions|
  {
    actions != [] ==> Fresh(st, actions[0]) && FreshRun(Next(st, actions[0]), actions[1..])
  }

  predicate DayInv(st: State) {
    && (forall i, j :: 0 <= i < j < |st.commits| ==> st.commits[i] / DAY_MS < st.commits[j] / DAY_MS)
    && (forall i :: 0 <= i < |st.commits| ==> st.commits[i] > 0)
    && Value(st.stored, LAST_REPORTED_AT) == (if st.commits == [] then 0 else st.commits[|st.commits| - 1])
    && (forall i :: 0 <= i < |st.pending| ==> LAST_REPORTED_AT !in st.pending[i])
    && (forall i :: 0 <= i < |st.flight| ==> LAST_REPORTED_AT !in st.flight[i])
    && (st.report.Some? ==>
          && st.report.value.now > 0
          && (st.commits != [] ==> st.commits[|st.commits| - 1] / DAY_MS < st.report.value.now / DAY_MS))
  }

  lemma LastReportedStays(stored: Counters, pending: Counters)
    requires LAST_REPORTED_AT !in pending
    ensures Value(MergeCounters(stored, pending), LAST_REPORTED_AT) == Value(stored, LAST_REPORTED_AT)
  {
  }

  lemma LastReportedIs(stored: Counters, reported: Counters, at: int)
    ensures Value(AfterReport(stored, reported, at), LAST_REPORTED_AT) == at
  {
  }

  lemma StepKeepsDayInv(st: State, action: Action)
    requires DayInv(st) && Fresh(st, action)
    ensures DayInv(Next(st, action))
  {
    hide IsMax, AfterReport, MergeCounters, Reportable, PlusAll;
    if Enabled(st, action) {
      match action
      case FlushMerge(p) =>
        LastReportedStays(st.stored, st.flight[p]);
      case ReportCommit =>
        LastReportedIs(st.stored, st.report.value.counters.value, st.report.value.now);
      case _ =>
    }
  }

  lemma {:induction false} FreshRunKeepsDayInv(st: State, actions: seq<Action>)
    requires DayInv(st) && FreshRun(st, actions)
    ensures DayInv(Run(st, actions))
    decreases |actions|
  {
    hide Next, DayInv, Fresh;
    if actions != [] {
      StepKeepsDayInv(st, actions[0]);
      FreshRunKeepsDayInv(Next(st, actions[0]), actions[1..]);
    }
  }

  /** As long as no report starts with a time from before the last one, no day has two. */
  lemma AtMostOneReportPerDay(n: nat, actions: seq<Action>)
    requires FreshRun(Start(n), actions)
    ensures OnePerDay(Run(Start(n), actions).commits)
  {
    FreshRunKeepsDayInv(Start(n), actions);
  }

  // Without that a day can get two: the time is read before the lock is taken.

  /** One whole accepted report of process `p`. */
  function ReportCycle(p: nat): seq<Action> {
    [ReportBegin(p), ReportSnapshot, ReportSend(true), ReportCommit]
  }

  lemma CycleCommits(st: State, p: nat)
    requires Enabled(st, ReportBegin(p))
    ensures var to := Run(st, ReportCycle(p));
      && to.commits == st.commits + [st.calledAt[p]]
      && to.report.None? && Value(to.stored, LAST_REPORTED_AT) == st.calledAt[p]
      && to.calledAt == st.calledAt && to.clock == st.clock
  {
    hide Reportable, PlusAll, IsMax;
    var a := ReportCycle(p);
    var s1 := Next(st, a[0]);
    var s2 := Next(s1, a[1]);
    var s3 := Next(s2, a[2]);
    var s4 := Next(s3, a[3]);
    assert Run(s4, []) == s4;
    assert a[3..] == [a[3]] && a[3..][1..] == [];
    assert Run(s3, a[3..]) == s4;
    assert a[2..][1..] == a[3..];
    assert Run(s2, a[2..]) == s4;
    assert a[1..][1..] == a[2..];
    assert Run(s1, a[1..]) == s4;
  }

  lemma {:induction false} RunAppends(st: State, a: seq<Action>, b: seq<Action>)
    ensures Run(st, a + b) == Run(Run(st, a), b)
    decreases |a|
  {
    hide Next;
    if a == [] {
      assert a + b == b;
    } else {
      assert (a + b)[0] == a[0] && (a + b)[1..] == a[1..] + b;
      RunAppends(Next(st, a[0]), a[1..], b);
    }
  }

  lemma {:induction false} FreshAppends(st: State, a: seq<Action>, b: seq<Action>)
    ensures FreshRun(st, a + b) <==> FreshRun(st, a) && FreshRun(Run(st, a), b)
    decreases |a|
  {
    hide Next, Fresh;
    if a == [] {
      assert a + b == b;
    } else {
      assert (a + b)[0] == a[0] && (a + b)[1..] == a[1..] + b;
      FreshAppends(Next(st, a[0]), a[1..], b);
    }
  }

  lemma {:induction false} FreshWithoutBegin(st: State, actions: seq<Action>)
    requires forall i :: 0 <= i < |actions| ==> !actions[i].ReportBegin?
    ensures FreshRun(st, actions)
    decreases |actions|
  {
    hide Next;
    if actions != [] {
      FreshWithoutBegin(Next(st, actions[0]), actions[1..]);
    }
  }

  lemma FreshCycle(st: State, p: nat)
    requires Fresh(st, ReportBegin(p))
    ensures FreshRun(st, ReportCycle(p))
  {
    hide Next, Fresh;
    var rest := ReportCycle(p)[1..];
    FreshWithoutBegin(Next(st, ReportBegin(p)), rest);
  }

  /** Both processes read the time `called`, and process 0 reports. */
  function EarlierDay(called: int): seq<Action> {
    [Tick(called), ReportCall(0), ReportCall(1)] + ReportCycle(0)
  }

  /** Process 0 reads the time `last` and reports again. */
  function LaterDay(last: int): seq<Action> {
    [Tick(last), ReportCall(0)] + ReportCycle(0)
  }

  lemma AfterEarlierDay(called: int)
    requires called > 0
    ensures FreshRun(Start(2), EarlierDay(called))
    ensures var to := Run(Start(2), EarlierDay(called));
      && to.calledAt == [called, called] && to.clock == called && to.report.None?
      && Value(to.stored, LAST_REPORTED_AT) == called && to.commits == [called]
  {
    hide Enabled, ReportCycle, Run, Start, Fresh, FreshRun;
    var calls := [Tick(called), ReportCall(0), ReportCall(1)];
    BothCall(called);
    FreshWithoutBegin(Start(2), calls);
    FreshCycle(Run(Start(2), calls), 0);
    FreshAppends(Start(2), calls, ReportCycle(0));
    RunAppends(Start(2), calls, ReportCycle(0));
    CycleCommits(Run(Start(2), calls), 0);
  }

  lemma BothCall(called: int)
    requires called > 0
    ensures var to := Run(Start(2), [Tick(called), ReportCall(0), ReportCall(1)]);
      && Enabled(to, ReportBegin(0)) && Fresh(to, ReportBegin(0))
      && to.calledAt == [called, called] && to.clock == called && to.commits == []
  {
    var a := [Tick(called), ReportCall(0), ReportCall(1)];
    var s1 := Next(Start(2), a[0]);
    var s2 := Next(s1, a[1]);
    var s3 := Next(s2, a[2]);
    assert a[1..][1..] == a[2..] && a[2..] == [a[2]] && a[2..][1..] == [];
    assert s3.calledAt == [called, called];
    assert Run(s2, a[2..]) == s3;
    assert Run(s1, a[1..]) == s3;
  }

  lemma AfterLaterDay(st: State, called: int, last: int)
    requires 0 < called < last && IsReportDue(called, last)
    requires st.calledAt == [called, called] && st.clock == called && st.report.None?
    requires Value(st.stored, LAST_REPORTED_AT) == called
    ensures FreshRun(st, LaterDay(last))
    ensures var to := Run(st, LaterDay(last));
      && to.calledAt == [last, called] && to.report.None?
      && Value(to.stored, LAST_REPORTED_AT) == last && to.commits == st.commits + [last]
  {
    hide Enabled, ReportCycle, Run, Fresh, FreshRun, IsReportDue;
    var calls := [Tick(last), ReportCall(0)];
    OneCalls(st, called, last);
    FreshWithoutBegin(st, calls);
    FreshCycle(Run(st, calls), 0);
    FreshAppends(st, calls, ReportCycle(0));
    RunAppends(st, calls, ReportCycle(0));
    CycleCommits(Run(st, calls), 0);
  }

  lemma OneCalls(st: State, called: int, last: int)
    requires 0 < called < last && IsReportDue(called, last)
    requires st.calledAt == [called, called] && st.clock == called && st.report.None?
    requires Value(st.stored, LAST_REPORTED_AT) == called
    ensures var to := Run(st, [Tick(last), ReportCall(0)]);
      && Enabled(to, ReportBegin(0)) && Fresh(to, ReportBegin(0))
      && to.calledAt == [last, called] && to.commits == st.commits
  {
    var a := [Tick(last), ReportCall(0)];
    var s1 := Next(st, a[0]);
    var s2 := Next(s1, a[1]);
    assert a[1..] == [a[1]] && a[1..][1..] == [];
    assert s2.calledAt == [last, called];
    assert Run(s1, a[1..]) == s2;
  }

  /** Process `p` may start a report with the time `called` when the last one was at `last`. */
  ghost predicate Reaches(n: nat, actions: seq<Action>, p: nat, last: int, called: int) {
    var st := Run(Start(n), actions);
    Enabled(st, ReportBegin(p)) && Value(st.stored, LAST_REPORTED_AT) == last && st.calledAt[p] == called
  }

  /** After every history of fresh reports up to `last`, a report with the time `called` is the only
      one of its day. */
  ghost predicate KeepsOnePerDay(last: int, called: int) {
    forall n: nat, actions, p: nat :: FreshRun(Start(n), actions) && Reaches(n, actions, p, last, called) ==>
      OnePerDay(Run(Run(Start(n), actions), ReportCycle(p)).commits)
  }

  lemma FreshReportKeepsOnePerDay(n: nat, actions: seq<Action>, p: nat, last: int, called: int)
    requires FreshRun(Start(n), actions) && Reaches(n, actions, p, last, called)
    requires last <= called && called > 0
    ensures OnePerDay(Run(Run(Start(n), actions), ReportCycle(p)).commits)
  {
    var st := Run(Start(n), actions);
    hide Run, ReportCycle, FreshRun, Next;
    FreshRunKeepsDayInv(Start(n), actions);
    FreshCycle(st, p);
    FreshRunKeepsDayInv(st, ReportCycle(p));
  }

  /**
   Process 1 read the time `called` and gets the lock after process 0 has reported `called` and, on a
   later day, `last`: the day of `called` gets its second report.
   */
  lemma StaleTimeReportsTwice(last: int, called: int) returns (actions: seq<Action>)
    requires 0 < called < last && IsReportDue(last, called)
    ensures FreshRun(Start(2), actions) && Reaches(2, actions, 1, last, called)
    ensures !OnePerDay(Run(Run(Start(2), actions), ReportCycle(1)).commits)
  {
    hide Enabled, ReportCycle, Run, Start, EarlierDay, LaterDay, FreshRun;
    var s1 := Run(Start(2), EarlierDay(called));
    AfterEarlierDay(called);
    var s2 := Run(s1, LaterDay(last));
    AfterLaterDay(s1, called, last);
    actions := EarlierDay(called) + LaterDay(last);
    RunAppends(Start(2), EarlierDay(called), LaterDay(last));
    FreshAppends(Start(2), EarlierDay(called), LaterDay(last));
    StillDue(s2, last, called);
    CycleCommits(s2, 1);
    var commits := Run(s2, ReportCycle(1)).commits;
    assert commits == [called, last, called];
    assert commits[0] == commits[2];
  }

  lemma StillDue(st: State, last: int, called: int)
    requires st.report.None? && st.calledAt == [last, called] && IsReportDue(last, called)
    requires Value(st.stored, LAST_REPORTED_AT) == last
    ensures Enabled(st, ReportBegin(1))
  {
  }

  /** A report that is due keeps to one a day exactly if its time is not before the last one's, which
      can be looked up under the lock. */
  lemma OnePerDayExactly(last: int, called: int)
    requires 0 < last && 0 < called && IsReportDue(last, called)
    ensures KeepsOnePerDay(last, called) <==> last <= called
  {
    hide Run, FreshRun, Reaches, OnePerDay, ReportCycle;
    if last <= called {
      forall n: nat, actions, p: nat | FreshRun(Start(n), actions) && Reaches(n, actions, p, last, called)
        ensures OnePerDay(Run(Run(Start(n), actions), ReportCycle(p)).commits)
      {
        FreshReportKeepsOnePerDay(n, actions, p, last, called);
      }
    } else {
      var actions := StaleTimeReportsTwice(last, called);
    }
  }
}
