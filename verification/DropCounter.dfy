/** DropCounter.record as the four atomic steps it makes on three shared
    counters, interleaved over any number of threads. */
module DropCounterProtocol {
  datatype Report = Report(sinceLast: nat, total: nat)

  /** A report as its caller logs it: what it says, and the second it was made for. */
  datatype Logged = Logged(now: nat, report: Report)

  /** Where a thread stands inside `record`. */
  datatype Thread =
    | Idle
    | Added(now: nat, total: nat)             // after fetch_add
    | Loaded(now: nat, total: nat, last: nat) // after the load, when it differed from now
    | Won(now: nat, total: nat)               // after a successful compare_exchange

  /** The three atomics, the threads, and the history of reports (in fetch_max
      order) and of the seconds written by successful compare_exchanges. */
  datatype Shared = Shared(
    total: nat, reportedTotal: nat, lastSecs: nat,
    threads: seq<Thread>, log: seq<Logged>, writes: seq<nat>)

  datatype Action = Begin(now: nat) | Load | Exchange | Publish

  datatype Event = Event(thread: nat, action: Action)

  function SetThread(s: Shared, t: nat, thread: Thread): Shared
    requires t < |s.threads|
  {
    s.(threads := s.threads[t := thread])
  }

  /** One atomic step of thread `t`; an action the thread is not ready for does nothing. */
  function Apply(s: Shared, t: nat, action: Action): Shared {
    if t >= |s.threads| then s else
    match (s.threads[t], action)
    case (Idle, Begin(now)) =>
      SetThread(s.(total := s.total + 1), t, Added(now, s.total + 1))
    case (Added(now, total), Load) =>
      SetThread(s, t, if s.lastSecs == now then Idle else Loaded(now, total, s.lastSecs))
    case (Loaded(now, total, last), Exchange) =>
      if s.lastSecs == last then SetThread(s.(lastSecs := now, writes := s.writes + [now]), t, Won(now, total))
      else SetThread(s, t, Idle)
    case (Won(now, total), Publish) =>
      var log := if total > s.reportedTotal
                 then s.log + [Logged(now, Report(total - s.reportedTotal, total))]
                 else s.log;
      var reported := if total > s.reportedTotal then total else s.reportedTotal;
      SetThread(s.(reportedTotal := reported, log := log), t, Idle)
    case _ => s
  }

  function Run(s: Shared, events: seq<Event>): Shared {
    if events == [] then s
    else
      var last := events[|events| - 1];
      Apply(Run(s, events[..|events| - 1]), last.thread, last.action)
  }

  function Start(n: nat): Shared {
    Shared(0, 0, 0, seq(n, _ => Idle), [], [])
  }

  // ----- calls: when they begin, how they end

  predicate Begins(s: Shared, e: Event) {
    e.action.Begin? && e.thread < |s.threads| && s.threads[e.thread].Idle?
  }

  /** How many calls of `record` these events begin: the drops recorded. */
  function CallsBegun(s: Shared, events: seq<Event>): nat {
    if events == [] then 0
    else
      var front, last := events[..|events| - 1], events[|events| - 1];
      CallsBegun(s, front) + if Begins(Run(s, front), last) then 1 else 0
  }

  /** Whether `e` begins a call, or is the step its thread's call takes next. */
  predicate Ready(s: Shared, e: Event) {
    e.thread < |s.threads| &&
    match s.threads[e.thread]
    case Idle => e.action.Begin?
    case Added(_, _) => e.action.Load?
    case Loaded(_, _, _) => e.action.Exchange?
    case Won(_, _) => e.action.Publish?
  }

  /** In every interleaving `total` is the number of calls begun. */
  lemma {:induction false} TotalCountsCalls(n: nat, events: seq<Event>)
    ensures Run(Start(n), events).total == CallsBegun(Start(n), events)
  {
    if events != [] {
      TotalCountsCalls(n, events[..|events| - 1]);
    }
  }

  lemma StepIsPrivate(s: Shared, e: Event, t: nat)
    requires t < |s.threads|
    ensures |Apply(s, e.thread, e.action).threads| == |s.threads|
    ensures e.thread != t || !Ready(s, e) ==> Apply(s, e.thread, e.action).threads[t] == s.threads[t]
    ensures !Ready(s, e) ==> Apply(s, e.thread, e.action) == s
  {
  }

  /** A call that loses the exchange, because another changed the second after its load,
      ends there and leaves nothing behind but the drop it counted when it began. */
  lemma LosingCallChangesNothing(s: Shared, t: nat)
    requires t < |s.threads| && s.threads[t].Loaded? && s.lastSecs != s.threads[t].last
    ensures var s' := Apply(s, t, Exchange);
            && s'.total == s.total && s'.reportedTotal == s.reportedTotal && s'.lastSecs == s.lastSecs
            && s'.log == s.log && s'.writes == s.writes
            && s'.threads == s.threads[t := Idle]
  {
  }

  function StepsLeft(thread: Thread): nat {
    match thread case Idle => 0 case Added(_, _) => 3 case Loaded(_, _, _) => 2 case Won(_, _) => 1
  }

  /** The steps that thread `t` takes in these events. */
  function OwnSteps(s: Shared, t: nat, events: seq<Event>): nat {
    if events == [] then 0
    else
      var front, last := events[..|events| - 1], events[|events| - 1];
      OwnSteps(s, t, front) + if last.thread == t && Ready(Run(s, front), last) then 1 else 0
  }

  /** Thread `t` is inside a call before and after each of these events. */
  predicate Busy(s: Shared, t: nat, events: seq<Event>) {
    && (events == [] || Busy(s, t, events[..|events| - 1]))
    && t < |Run(s, events).threads| && !Run(s, events).threads[t].Idle?
  }

  lemma {:induction false} BusyStepsRunOut(s: Shared, t: nat, events: seq<Event>)
    requires Busy(s, t, events)
    ensures t < |s.threads| && OwnSteps(s, t, events) + StepsLeft(Run(s, events).threads[t]) <= StepsLeft(s.threads[t])
  {
    if events != [] {
      var front, last := events[..|events| - 1], events[|events| - 1];
      BusyStepsRunOut(s, t, front);
      StepIsPrivate(Run(s, front), last, t);
    }
  }

  /** A call is over after at most four of its own steps, however other threads
      interleave: one still running has taken three at most, and can take the next. */
  lemma CallTakesAtMostFourSteps(s: Shared, t: nat, now: nat, events: seq<Event>)
    requires Begins(s, Event(t, Begin(now))) && Busy(Apply(s, t, Begin(now)), t, events)
    ensures var begun := Apply(s, t, Begin(now));
            && 1 + OwnSteps(begun, t, events) <= 3
            && (exists action: Action :: !action.Begin? && Ready(Run(begun, events), Event(t, action)))
  {
    var begun := Apply(s, t, Begin(now));
    BusyStepsRunOut(begun, t, events);
    var next := match Run(begun, events).threads[t]
      case Added(_, _) => Load
      case Loaded(_, _, _) => Exchange
      case _ => Publish;
    assert Ready(Run(begun, events), Event(t, next));
  }

  /** One past the event that began the latest call of thread `t`, or 0. */
  function BegunAt(s: Shared, events: seq<Event>, t: nat): (k: nat)
    ensures k <= |events|
  {
    if events == [] then 0
    else
      var front, last := events[..|events| - 1], events[|events| - 1];
      if last.thread == t && Begins(Run(s, front), last) then |events| else BegunAt(s, front, t)
  }

  /** The call of thread `t`, if it is in flight, keeps the second it was made at and its
      number among all calls begun. */
  ghost predicate Numbered(s: Shared, events: seq<Event>, t: nat) {
    var k := BegunAt(s, events, t);
    t < |Run(s, events).threads| &&
    (Run(s, events).threads[t].Idle? ||
     (&& k > 0 && events[k - 1].action.Begin? && Run(s, events).threads[t].now == events[k - 1].action.now
      && Run(s, events).threads[t].total == CallsBegun(s, events[..k])))
  }

  lemma OneMoreEvent(s: Shared, front: seq<Event>, last: Event, t: nat)
    ensures Run(s, front + [last]) == Apply(Run(s, front), last.thread, last.action)
    ensures BegunAt(s, front + [last], t) ==
            if last.thread == t && Begins(Run(s, front), last) then |front| + 1 else BegunAt(s, front, t)
    ensures CallsBegun(s, front + [last]) == CallsBegun(s, front) + if Begins(Run(s, front), last) then 1 else 0
  {
    assert (front + [last])[..|front|] == front;
  }

  lemma BeginIsNumbered(n: nat, front: seq<Event>, last: Event)
    requires Begins(Run(Start(n), front), last)
    ensures Numbered(Start(n), front + [last], last.thread)
  {
    OneMoreEvent(Start(n), front, last, last.thread);
    TotalCountsCalls(n, front);
    assert (front + [last])[..|front| + 1] == front + [last];
  }

  lemma StepStaysNumbered(s: Shared, front: seq<Event>, last: Event, t: nat)
    requires Numbered(s, front, t) && !(last.thread == t && Begins(Run(s, front), last))
    ensures Numbered(s, front + [last], t)
  {
    var k := BegunAt(s, front, t);
    OneMoreEvent(s, front, last, t);
    assert (front + [last])[..k] == front[..k];
    assert k > 0 ==> (front + [last])[k - 1] == front[k - 1];
    StepIsPrivate(Run(s, front), last, t);
    StepKeepsCall(Run(s, front), last, t);
  }

  lemma StepKeepsCall(s: Shared, e: Event, t: nat)
    requires t < |s.threads| && !(e.thread == t && Begins(s, e))
    ensures var (before, after) := (s.threads[t], Apply(s, e.thread, e.action).threads[t]);
            after.Idle? || (!before.Idle? && after.now == before.now && after.total == before.total)
  {
  }

  lemma {:induction false} InFlightIsNumbered(n: nat, events: seq<Event>, t: nat)
    requires t < n
    ensures Numbered(Start(n), events, t)
  {
    if events != [] {
      var front, last := events[..|events| - 1], events[|events| - 1];
      assert front + [last] == events;
      InFlightIsNumbered(n, front, t);
      if last.thread == t && Begins(Run(Start(n), front), last) {
        BeginIsNumbered(n, front, last);
      } else {
        StepStaysNumbered(Start(n), front, last, t);
      }
    }
  }

  /** From `s` to `s'` thread `t` ends its call, number `number` among all calls begun, made
      at second `now`: it reports all drops up to its own that are not reported yet, if any. */
  ghost predicate Publishes(s: Shared, s': Shared, t: nat, now: nat, number: nat) {
    && (number > s.reportedTotal ==>
          && s'.log == s.log + [Logged(now, Report(number - s.reportedTotal, number))]
          && s'.reportedTotal == number)
    && (number <= s.reportedTotal ==> s'.log == s.log && s'.reportedTotal == s.reportedTotal)
    && s'.total == s.total && s'.lastSecs == s.lastSecs && s'.writes == s.writes
    && t < |s.threads| && s'.threads == s.threads[t := Idle]
  }

  lemma PublishStep(s: Shared, t: nat)
    requires t < |s.threads| && s.threads[t].Won?
    ensures Publishes(s, Apply(s, t, Publish), t, s.threads[t].now, s.threads[t].total)
  {
  }

  /** Every report, in every interleaving: a call that won the exchange reports if and only
      if no later call has reported, and its report reaches up to its own drop. */
  lemma PublishReportsOwnCall(n: nat, events: seq<Event>, t: nat)
    requires t < n && t < |Run(Start(n), events).threads| && Run(Start(n), events).threads[t].Won?
    ensures var k := BegunAt(Start(n), events, t);
            && k > 0 && events[k - 1].action.Begin?
            && Publishes(Run(Start(n), events), Run(Start(n), events + [Event(t, Publish)]), t,
                         events[k - 1].action.now, CallsBegun(Start(n), events[..k]))
  {
    InFlightIsNumbered(n, events, t);
    PublishStep(Run(Start(n), events), t);
    assert (events + [Event(t, Publish)])[..|events|] == events;
  }

  // ----- the chain of reports

  /** A report accounts for the drops numbered above this, up to its total. */
  function From(r: Report): int {
    r.total - r.sinceLast
  }

  function LastTotal(log: seq<Logged>): nat {
    if log == [] then 0 else log[|log| - 1].report.total
  }

  /** Each report starts where the one before it ended, and covers at least one drop. */
  ghost predicate Chained(log: seq<Logged>) {
    log == [] ||
    (Chained(log[..|log| - 1]) && From(log[|log| - 1].report) == LastTotal(log[..|log| - 1]) < LastTotal(log))
  }

  function LastWrite(writes: seq<nat>): nat {
    if writes == [] then 0 else writes[|writes| - 1]
  }

  /** A successful exchange always changes the second, starting from zero. */
  ghost predicate Alternating(writes: seq<nat>) {
    writes == [] || (Alternating(writes[..|writes| - 1]) && LastWrite(writes) != LastWrite(writes[..|writes| - 1]))
  }

  /** How often `second` was written, was reported, and is about to be published. */
  function Written(writes: seq<nat>, second: nat): nat {
    if writes == [] then 0
    else Written(writes[..|writes| - 1], second) + if writes[|writes| - 1] == second then 1 else 0
  }

  function Reported(log: seq<Logged>, second: nat): nat {
    if log == [] then 0
    else Reported(log[..|log| - 1], second) + if log[|log| - 1].now == second then 1 else 0
  }

  function WonFor(thread: Thread, second: nat): nat {
    if thread.Won? && thread.now == second then 1 else 0
  }

  function Pending(threads: seq<Thread>, second: nat): nat {
    if threads == [] then 0 else WonFor(threads[0], second) + Pending(threads[1..], second)
  }

  ghost predicate ThreadOk(thread: Thread, total: nat) {
    && (!thread.Idle? ==> 1 <= thread.total <= total)
    && (thread.Loaded? ==> thread.last != thread.now)
  }

  ghost predicate LogInv(s: Shared) {
    Chained(s.log) && s.reportedTotal == LastTotal(s.log) <= s.total
  }

  ghost predicate WritesInv(s: Shared) {
    Alternating(s.writes) && s.lastSecs == LastWrite(s.writes)
  }

  ghost predicate ThreadsInv(s: Shared) {
    forall t :: 0 <= t < |s.threads| ==> ThreadOk(s.threads[t], s.total)
  }

  /** The reports so far are an unbroken chain that stays within the drops made. */
  ghost predicate ReportsInv(s: Shared) {
    LogInv(s) && WritesInv(s) && ThreadsInv(s)
  }

  /** Every report of `second`, made or pending, has its own write of that second. */
  ghost predicate SecondInv(s: Shared, second: nat) {
    Reported(s.log, second) + Pending(s.threads, second) <= Written(s.writes, second)
  }

  lemma {:induction false} PendingUpdate(threads: seq<Thread>, t: nat, thread: Thread, second: nat)
    requires t < |threads|
    ensures Pending(threads[t := thread], second) + WonFor(threads[t], second)
         == Pending(threads, second) + WonFor(thread, second)
  {
    if t == 0 {
      assert threads[t := thread][1..] == threads[1..];
    } else {
      assert threads[t := thread][1..] == threads[1..][t - 1 := thread];
      PendingUpdate(threads[1..], t - 1, thread, second);
    }
  }

  lemma StepKeepsThreads(s: Shared, t: nat, action: Action)
    requires ThreadsInv(s)
    ensures ThreadsInv(Apply(s, t, action)) && |Apply(s, t, action).threads| == |s.threads|
  {
  }

  lemma StepKeepsWrites(s: Shared, t: nat, action: Action)
    requires WritesInv(s) && ThreadsInv(s)
    ensures WritesInv(Apply(s, t, action))
  {
    if t < |s.threads| && s.threads[t].Loaded? {
      assert ThreadOk(s.threads[t], s.total);
      assert (s.writes + [s.threads[t].now])[..|s.writes|] == s.writes;
    }
  }

  lemma ReportStaysChained(log: seq<Logged>, entry: Logged)
    requires Chained(log) && From(entry.report) == LastTotal(log) < entry.report.total
    ensures Chained(log + [entry]) && LastTotal(log + [entry]) == entry.report.total
  {
    assert (log + [entry])[..|log|] == log;
  }

  /** Only a call that won the exchange reports. */
  lemma LogUntouched(s: Shared, t: nat, action: Action)
    requires !(t < |s.threads| && s.threads[t].Won? && action.Publish?)
    ensures var s' := Apply(s, t, action);
            s'.log == s.log && s'.reportedTotal == s.reportedTotal && s'.total >= s.total
  {
  }

  lemma PublishKeepsLog(s: Shared, s': Shared, t: nat, now: nat, number: nat)
    requires LogInv(s) && number <= s.total && Publishes(s, s', t, now, number)
    ensures LogInv(s')
  {
    if number > s.reportedTotal {
      ReportStaysChained(s.log, Logged(now, Report(number - s.reportedTotal, number)));
    }
  }

  lemma StepKeepsLog(s: Shared, t: nat, action: Action)
    requires LogInv(s) && ThreadsInv(s)
    ensures LogInv(Apply(s, t, action))
  {
    if t < |s.threads| && s.threads[t].Won? && action.Publish? {
      assert ThreadOk(s.threads[t], s.total);
      PublishStep(s, t);
      PublishKeepsLog(s, Apply(s, t, action), t, s.threads[t].now, s.threads[t].total);
    } else {
      LogUntouched(s, t, action);
    }
  }

  lemma StepKeepsReports(s: Shared, t: nat, action: Action)
    requires ReportsInv(s)
    ensures ReportsInv(Apply(s, t, action))
    ensures |Apply(s, t, action).threads| == |s.threads|
  {
    StepKeepsThreads(s, t, action);
    StepKeepsWrites(s, t, action);
    StepKeepsLog(s, t, action);
  }

  lemma StepKeepsSecond(s: Shared, t: nat, action: Action, second: nat)
    requires SecondInv(s, second)
    ensures SecondInv(Apply(s, t, action), second)
  {
    if t < |s.threads| {
      PendingUpdate(s.threads, t, Apply(s, t, action).threads[t], second);
      match (s.threads[t], action)
      case (Loaded(now, _, _), Exchange) => assert (s.writes + [now])[..|s.writes|] == s.writes;
      case (Won(now, total), Publish) =>
        var entry := Logged(now, Report(if total > s.reportedTotal then total - s.reportedTotal else 0, total));
        assert (s.log + [entry])[..|s.log|] == s.log;
      case _ =>
    }
  }

  lemma {:induction false} NothingPending(threads: seq<Thread>, second: nat)
    requires forall t :: 0 <= t < |threads| ==> threads[t].Idle?
    ensures Pending(threads, second) == 0
  {
    if threads != [] {
      NothingPending(threads[1..], second);
    }
  }

  lemma {:induction false} RunKeepsInv(n: nat, events: seq<Event>, second: nat)
    ensures ReportsInv(Run(Start(n), events)) && SecondInv(Run(Start(n), events), second)
  {
    if events == [] {
      NothingPending(Start(n).threads, second);
    } else {
      var last, before := events[|events| - 1], Run(Start(n), events[..|events| - 1]);
      RunKeepsInv(n, events[..|events| - 1], second);
      StepKeepsReports(before, last.thread, last.action);
      StepKeepsSecond(before, last.thread, last.action, second);
    }
  }

  function SumSinceLast(log: seq<Logged>): nat {
    if log == [] then 0 else SumSinceLast(log[..|log| - 1]) + log[|log| - 1].report.sinceLast
  }

  /** No drop is in two of the reports. */
  ghost predicate Disjoint(log: seq<Logged>) {
    forall i, j :: 0 <= i < j < |log| ==> log[i].report.total <= From(log[j].report) < log[j].report.total
  }

  lemma {:induction false} ChainTelescopes(log: seq<Logged>)
    requires Chained(log)
    ensures SumSinceLast(log) == LastTotal(log)
    ensures forall i :: 0 <= i < |log| ==> log[i].report.total <= LastTotal(log)
  {
    if log != [] {
      ChainTelescopes(log[..|log| - 1]);
    }
  }

  lemma {:induction false} ChainIsDisjoint(log: seq<Logged>)
    requires Chained(log)
    ensures Disjoint(log)
  {
    if log != [] {
      ChainIsDisjoint(log[..|log| - 1]);
      ChainTelescopes(log[..|log| - 1]);
    }
  }

  /** In every interleaving, the reports in fetch_max order cover disjoint,
      consecutive ranges of the drops: no drop is reported twice, none before the
      last reported one is skipped, and no report runs ahead of the calls begun. */
  lemma ReportsPartitionDrops(n: nat, events: seq<Event>)
    ensures var s := Run(Start(n), events);
            && Disjoint(s.log) && Chained(s.log)
            && SumSinceLast(s.log) == s.reportedTotal <= CallsBegun(Start(n), events)
            && s.total == CallsBegun(Start(n), events)
  {
    TotalCountsCalls(n, events);
    RunKeepsInv(n, events, 0);
    ChainIsDisjoint(Run(Start(n), events).log);
    ChainTelescopes(Run(Start(n), events).log);
  }

  ghost predicate Nondecreasing(xs: seq<nat>) {
    forall i, j :: 0 <= i < j < |xs| ==> xs[i] <= xs[j]
  }

  lemma {:induction false} RisingWritesAreDistinct(writes: seq<nat>, second: nat)
    requires Alternating(writes) && Nondecreasing(writes)
    ensures Written(writes, second) <= 1
    ensures second > LastWrite(writes) ==> Written(writes, second) == 0
  {
    if writes != [] {
      var init := writes[..|writes| - 1];
      RisingWritesAreDistinct(init, second);
      assert init != [] ==> LastWrite(init) == writes[|writes| - 2] <= LastWrite(writes);
    }
  }

  /** What the throttle gives in every interleaving: no second is reported more
      often than it was written, two consecutive writes differ, and once the
      seconds written never decrease each second is reported at most once. */
  lemma ThrottleHoldsWhileSecondsRise(n: nat, events: seq<Event>, second: nat)
    ensures var s := Run(Start(n), events);
            && Reported(s.log, second) <= Written(s.writes, second)
            && Alternating(s.writes)
            && (Nondecreasing(s.writes) ==> Reported(s.log, second) <= 1)
  {
    RunKeepsInv(n, events, second);
    if Nondecreasing(Run(Start(n), events).writes) {
      RisingWritesAreDistinct(Run(Start(n), events).writes, second);
    }
  }

  lemma {:induction false} RunConcat(s: Shared, a: seq<Event>, b: seq<Event>)
    ensures Run(s, a + b) == Run(Run(s, a), b)
    decreases |b|
  {
    if b == [] {
      assert a + b == a;
    } else {
      assert (a + b)[..|a + b| - 1] == a + b[..|b| - 1];
      RunConcat(s, a, b[..|b| - 1]);
    }
  }

  lemma {:induction false} RunSplits(s: Shared, events: seq<Event>)
    requires events != []
    ensures Run(s, events) == Run(Apply(s, events[0].thread, events[0].action), events[1..])
  {
    assert events == [events[0]] + events[1..];
    RunConcat(s, [events[0]], events[1..]);
    assert [events[0]][..0] == [];
  }

  function Call(t: nat, now: nat): seq<Event> {
    [Event(t, Begin(now)), Event(t, Load), Event(t, Exchange), Event(t, Publish)]
  }

  function Undisturbed(s: Shared, t: nat, now: nat): Shared {
    Apply(Apply(Apply(Apply(s, t, Begin(now)), t, Load), t, Exchange), t, Publish)
  }

  lemma RunOfCall(s: Shared, t: nat, now: nat)
    ensures Run(s, Call(t, now)) == Undisturbed(s, t, now)
  {
    var e, s1 := Call(t, now), Apply(s, t, Begin(now));
    var s2 := Apply(s1, t, Load);
    var s3 := Apply(s2, t, Exchange);
    RunSplits(s, e);
    RunSplits(s1, e[1..]);
    RunSplits(s2, e[2..]);
    RunSplits(s3, e[3..]);
  }

  /** A whole call of thread `t`, from a second the counter does not hold. */
  lemma CallAlone(s: Shared, t: nat, now: nat)
    requires t < |s.threads| && s.threads[t].Idle? && s.lastSecs != now && s.reportedTotal <= s.total
    ensures Run(s, Call(t, now)) ==
            Shared(s.total + 1, s.total + 1, now, s.threads,
                   s.log + [Logged(now, Report(s.total + 1 - s.reportedTotal, s.total + 1))], s.writes + [now])
  {
    RunOfCall(s, t, now);
    var s1 := Apply(s, t, Begin(now));
    var s3 := Apply(Apply(s1, t, Load), t, Exchange);
    assert s1.threads[t] == Added(now, s.total + 1);
    assert s3.threads[t] == Won(now, s.total + 1);
    assert s3.threads[t := Idle] == s.threads;
  }

  /** The rest of a call whose thread has just added its drop. */
  function Resume(t: nat): seq<Event> {
    [Event(t, Load), Event(t, Exchange), Event(t, Publish)]
  }

  /** A call delayed before its load finishes alone, after larger totals were
      reported: it writes its own second back and reports nothing. */
  lemma ResumeAlone(s: Shared, t: nat)
    requires t < |s.threads| && s.threads[t].Added?
    requires s.lastSecs != s.threads[t].now && s.threads[t].total <= s.reportedTotal
    ensures var now := s.threads[t].now;
            Run(s, Resume(t)) ==
            s.(lastSecs := now, threads := s.threads[t := Idle], writes := s.writes + [now])
  {
    var s1 := Apply(s, t, Load);
    var s2 := Apply(s1, t, Exchange);
    assert s1.threads[t].Loaded? && s2.threads[t].Won?;
    RunSplits(s, Resume(t));
    RunSplits(s1, Resume(t)[1..]);
    RunSplits(s2, Resume(t)[2..]);
    assert Apply(s2, t, Publish).threads == s.threads[t := Idle];
  }

  // ----- exactly when the throttle holds

  /** No call of another second has yet to load the last reported second. */
  ghost predicate NoneLoading(s: Shared, now: nat) {
    forall t :: 0 <= t < |s.threads| && s.threads[t].Added? ==> s.threads[t].now == now
  }

  /** No call of another second is in flight at all. */
  ghost predicate NoneInFlight(s: Shared, now: nat) {
    forall t :: 0 <= t < |s.threads| && !s.threads[t].Idle? ==> s.threads[t].now == now
  }

  /** The second of the last call begun, `latest` before any. */
  function LatestFrom(s: Shared, latest: nat, events: seq<Event>): nat {
    if events == [] then latest
    else
      var front, last := events[..|events| - 1], events[|events| - 1];
      if Begins(Run(s, front), last) then last.action.now else LatestFrom(s, latest, front)
  }

  /** If `e` begins a call, it does so in clock order and while no call of another second
      has yet to load. */
  ghost predicate MayFollow(s: Shared, latest: nat, e: Event) {
    Begins(s, e) ==> latest <= e.action.now && NoneLoading(s, e.action.now)
  }

  /** From a state whose last call began at `latest`: calls begin in clock order, and none
      while a call of another second has yet to load. */
  ghost predicate OrderlyFrom(s: Shared, latest: nat, events: seq<Event>) {
    events == [] ||
    (var front, last := events[..|events| - 1], events[|events| - 1];
     OrderlyFrom(s, latest, front) && MayFollow(Run(s, front), LatestFrom(s, latest, front), last))
  }

  function Latest(n: nat, events: seq<Event>): nat {
    LatestFrom(Start(n), 0, events)
  }

  ghost predicate Orderly(n: nat, events: seq<Event>) {
    OrderlyFrom(Start(n), 0, events)
  }

  /** What callers can see to it themselves: calls begin in clock order, and calls of
      different seconds never overlap. */
  ghost predicate Serial(n: nat, events: seq<Event>) {
    events == [] ||
    (var front, last := events[..|events| - 1], events[|events| - 1];
     && Serial(n, front)
     && (Begins(Run(Start(n), front), last) ==>
           Latest(n, front) <= last.action.now && NoneInFlight(Run(Start(n), front), last.action.now)))
  }

  ghost predicate LoadedOk(thread: Thread, lastSecs: nat, latest: nat) {
    thread.Loaded? ==> thread.last < thread.now <= latest && thread.last <= lastSecs
  }

  /** While calls are orderly the seconds written only rise. */
  ghost predicate OrderlyInv(s: Shared, latest: nat) {
    && NoneLoading(s, latest) && s.lastSecs <= latest
    && Nondecreasing(s.writes)
    && (forall t :: 0 <= t < |s.threads| ==> LoadedOk(s.threads[t], s.lastSecs, latest))
  }

  lemma AppendRising(writes: seq<nat>, now: nat)
    requires Nondecreasing(writes) && LastWrite(writes) <= now
    ensures Nondecreasing(writes + [now])
  {
    assert forall i :: 0 <= i < |writes| ==> writes[i] <= LastWrite(writes);
  }

  lemma StepKeepsOrder(s: Shared, e: Event, latest: nat)
    requires ReportsInv(s) && OrderlyInv(s, latest)
    requires Begins(s, e) ==> latest <= e.action.now && NoneLoading(s, e.action.now)
    ensures OrderlyInv(Apply(s, e.thread, e.action), if Begins(s, e) then e.action.now else latest)
  {
    if e.thread < |s.threads| && s.threads[e.thread].Loaded? && e.action.Exchange? {
      if s.lastSecs == s.threads[e.thread].last {
        assert LoadedOk(s.threads[e.thread], s.lastSecs, latest);
        AppendRising(s.writes, s.threads[e.thread].now);
      }
    }
  }

  lemma {:induction false} RunKeepsOrder(n: nat, events: seq<Event>)
    requires Orderly(n, events)
    ensures OrderlyInv(Run(Start(n), events), Latest(n, events))
  {
    if events != [] {
      var front, last := events[..|events| - 1], events[|events| - 1];
      RunKeepsOrder(n, front);
      RunKeepsInv(n, front, 0);
      StepKeepsOrder(Run(Start(n), front), last, Latest(n, front));
    }
  }

  /** Orderly calls report each second at most once. */
  lemma OrderlyCallsAreThrottled(n: nat, events: seq<Event>, second: nat)
    requires Orderly(n, events)
    ensures Reported(Run(Start(n), events).log, second) <= 1
  {
    RunKeepsOrder(n, events);
    ThrottleHoldsWhileSecondsRise(n, events, second);
  }

  lemma {:induction false} SerialIsOrderly(n: nat, events: seq<Event>)
    requires Serial(n, events)
    ensures Orderly(n, events)
  {
    if events != [] {
      SerialIsOrderly(n, events[..|events| - 1]);
    }
  }

  /** The documented bound, for callers whose calls of different seconds never overlap. */
  lemma SerialSecondsAreThrottled(n: nat, events: seq<Event>, second: nat)
    requires Serial(n, events)
    ensures Reported(Run(Start(n), events).log, second) <= 1
  {
    SerialIsOrderly(n, events);
    OrderlyCallsAreThrottled(n, events, second);
  }

  /** Thread `u` calls at `b` before and after the delayed call of thread `t` finishes. */
  function Overtaking(t: nat, u: nat, b: nat): seq<Event> {
    Call(u, b) + Resume(t) + Call(u, b)
  }

  /** In any state that keeps the reports' account, with a second thread idle and the
      counter at a second other than `b`: a call begun at `b` while one of another second
      has yet to load can be followed by two more reports of `b`. */
  lemma OvertakingReportsTwice(s: Shared, t: nat, u: nat, b: nat)
    requires ReportsInv(s) && t < |s.threads| && u < |s.threads|
    requires s.threads[t].Added? && s.threads[t].now != b
    requires s.threads[u].Idle? && s.lastSecs != b
    ensures Reported(Run(s, Overtaking(t, u, b)).log, b) == Reported(s.log, b) + 2
  {
    CallAlone(s, u, b);
    var s1 := Run(s, Call(u, b));
    assert ThreadOk(s.threads[t], s.total);
    ResumeAlone(s1, t);
    var s2 := Run(s1, Resume(t));
    CallAlone(s2, u, b);
    RunConcat(s, Call(u, b), Resume(t));
    RunConcat(s, Call(u, b) + Resume(t), Call(u, b));
    ReportedAppend(s.log, s1.log[|s.log|], b);
    ReportedAppend(s1.log, Run(s2, Call(u, b)).log[|s1.log|], b);
  }

  lemma ReportedAppend(log: seq<Logged>, last: Logged, second: nat)
    ensures Reported(log + [last], second) == Reported(log, second) + if last.now == second then 1 else 0
  {
    assert (log + [last])[..|log|] == log;
  }

  lemma {:induction false} OrderlyConcat(s: Shared, latest: nat, a: seq<Event>, b: seq<Event>)
    requires OrderlyFrom(s, latest, a) && OrderlyFrom(Run(s, a), LatestFrom(s, latest, a), b)
    ensures OrderlyFrom(s, latest, a + b)
    ensures LatestFrom(s, latest, a + b) == LatestFrom(Run(s, a), LatestFrom(s, latest, a), b)
    decreases |b|
  {
    if b == [] {
      assert a + b == a;
    } else {
      var front := b[..|b| - 1];
      OrderlyConcat(s, latest, a, front);
      RunConcat(s, a, front);
      assert (a + b)[..|a + b| - 1] == a + front && (a + b)[|a + b| - 1] == b[|b| - 1];
    }
  }

  /** However the run goes on, as long as the calls it begins are orderly, each second is
      reported at most once. */
  ghost predicate Throttled(s: Shared, latest: nat) {
    forall more, second :: OrderlyFrom(s, latest, more) ==> Reported(Run(s, more).log, second) <= 1
  }

  /** The exact condition. After orderly calls, a further call in clock order is safe, in
      every continuation whose own calls are orderly, if and only if no call of another
      second has yet to load when it begins. */
  lemma ThrottleExactly(n: nat, events: seq<Event>, u: nat, b: nat)
    requires Orderly(n, events) && Latest(n, events) <= b
    requires Begins(Run(Start(n), events), Event(u, Begin(b)))
    ensures Throttled(Run(Start(n), events + [Event(u, Begin(b))]), b) <==> NoneLoading(Run(Start(n), events), b)
  {
    var s := Run(Start(n), events);
    var begun := events + [Event(u, Begin(b))];
    assert begun[..|events|] == events;
    if NoneLoading(s, b) {
      assert Orderly(n, begun) && Latest(n, begun) == b;
      OrderlyStaysThrottled(n, begun);
    } else {
      RunKeepsOrder(n, events);
      RunKeepsInv(n, events, b);
      var t: nat :| t < |s.threads| && s.threads[t].Added? && s.threads[t].now != b;
      BreaksThrottle(s, t, u, b);
    }
  }

  lemma OrderlyStaysThrottled(n: nat, begun: seq<Event>)
    requires Orderly(n, begun)
    ensures Throttled(Run(Start(n), begun), Latest(n, begun))
  {
    var s, latest := Run(Start(n), begun), Latest(n, begun);
    forall more, second | OrderlyFrom(s, latest, more) ensures Reported(Run(s, more).log, second) <= 1 {
      OrderlyConcat(Start(n), 0, begun, more);
      OrderlyCallsAreThrottled(n, begun + more, second);
      RunConcat(Start(n), begun, more);
    }
  }

  // ----- a continuation that breaks an unsafe call

  /** Threads 0 to `k - 1` load, those that are about to. */
  function Loads(k: nat): (events: seq<Event>)
    ensures |events| == k
  {
    if k == 0 then [] else Loads(k - 1) + [Event(k - 1, Load)]
  }

  function Drained(threads: seq<Thread>, k: nat): seq<Thread> {
    seq(|threads|, i requires 0 <= i < |threads| => if i < k && threads[i].Added? then Idle else threads[i])
  }

  lemma LoadDrains(s: Shared, k: nat)
    requires k < |s.threads| && NoneLoading(s, s.lastSecs)
    ensures Apply(s.(threads := Drained(s.threads, k)), k, Load) == s.(threads := Drained(s.threads, k + 1))
  {
    var before := s.(threads := Drained(s.threads, k));
    assert before.threads[k] == s.threads[k];
    assert Drained(s.threads, k + 1) ==
           if s.threads[k].Added? then before.threads[k := Idle] else before.threads;
  }

  /** Calls that find their own second already there go idle. */
  lemma {:induction false} LoadsDrain(s: Shared, k: nat)
    requires k <= |s.threads| && NoneLoading(s, s.lastSecs)
    ensures Run(s, Loads(k)) == s.(threads := Drained(s.threads, k))
    decreases k
  {
    if k == 0 {
      assert Drained(s.threads, 0) == s.threads;
    } else {
      LoadsDrain(s, k - 1);
      assert Loads(k)[..k - 1] == Loads(k - 1);
      LoadDrains(s, k - 1);
    }
  }

  /** The call of `u` finishes, the delayed call of `t` writes its own second back, and
      every other delayed call of that second sees it and goes idle. */
  function Settling(n: nat, t: nat, u: nat): seq<Event> {
    Resume(u) + Resume(t) + Loads(n)
  }

  ghost predicate CanOvertake(s: Shared, t: nat, u: nat, b: nat) {
    && ReportsInv(s) && t < |s.threads| && s.threads[t].Added? && s.threads[t].now != b
    && NoneLoading(s, s.threads[t].now) && s.lastSecs != b
    && Begins(s, Event(u, Begin(b)))
  }

  /** The settled state: no call has yet to load, and the report of `b` is in. */
  lemma SettlingLeaves(s: Shared, t: nat, u: nat, b: nat)
    requires CanOvertake(s, t, u, b)
    ensures var s' := Run(Apply(s, u, Begin(b)), Settling(|s.threads|, t, u));
            && |s'.threads| == |s.threads| && s'.threads[u].Idle? && s'.lastSecs != b && s'.reportedTotal <= s'.total
            && (forall i :: 0 <= i < |s'.threads| ==> !s'.threads[i].Added?)
            && Reported(s'.log, b) == Reported(s.log, b) + 1
  {
    CallAlone(s, u, b);
    var s1 := Run(s, Call(u, b));
    assert ThreadOk(s.threads[t], s.total);
    ResumeAlone(s1, t);
    var s2 := Run(s1, Resume(t));
    LoadsDrain(s2, |s.threads|);
    RunSplits(s, Call(u, b));
    assert Call(u, b)[1..] == Resume(u);
    RunConcat(Apply(s, u, Begin(b)), Resume(u), Resume(t));
    RunConcat(Apply(s, u, Begin(b)), Resume(u) + Resume(t), Loads(|s.threads|));
    ReportedAppend(s.log, s1.log[|s.log|], b);
  }

  ghost predicate Quiet(events: seq<Event>) {
    events == [] || (Quiet(events[..|events| - 1]) && !events[|events| - 1].action.Begin?)
  }

  lemma {:induction false} QuietConcat(a: seq<Event>, b: seq<Event>)
    requires Quiet(a) && Quiet(b)
    ensures Quiet(a + b)
    decreases |b|
  {
    if b == [] {
      assert a + b == a;
    } else {
      QuietConcat(a, b[..|b| - 1]);
      assert (a + b)[..|a + b| - 1] == a + b[..|b| - 1];
    }
  }

  lemma {:induction false} LoadsAreQuiet(k: nat)
    ensures Quiet(Loads(k))
  {
    if k > 0 {
      LoadsAreQuiet(k - 1);
      assert Loads(k)[..k - 1] == Loads(k - 1);
    }
  }

  lemma ResumeIsQuiet(t: nat)
    ensures Quiet(Resume(t))
  {
    var e := Resume(t);
    assert e[..2][..1] == [Event(t, Load)] && [Event(t, Load)][..0] == [];
    assert Quiet(e[..2][..1]) && Quiet(e[..2]);
  }

  lemma SettlingIsQuiet(n: nat, t: nat, u: nat)
    ensures Quiet(Settling(n, t, u))
  {
    ResumeIsQuiet(u);
    ResumeIsQuiet(t);
    LoadsAreQuiet(n);
    QuietConcat(Resume(u), Resume(t));
    QuietConcat(Resume(u) + Resume(t), Loads(n));
  }

  /** Steps that begin no call are orderly and leave the latest second as it was. */
  lemma {:induction false} QuietIsOrderly(s: Shared, latest: nat, quiet: seq<Event>)
    requires Quiet(quiet)
    ensures OrderlyFrom(s, latest, quiet) && LatestFrom(s, latest, quiet) == latest
    decreases |quiet|
  {
    if quiet != [] {
      QuietIsOrderly(s, latest, quiet[..|quiet| - 1]);
    }
  }

  lemma OneIsOrderly(s: Shared, latest: nat, e: Event)
    requires MayFollow(s, latest, e)
    ensures OrderlyFrom(s, latest, [e])
  {
    assert [e][..0] == [];
  }

  /** One more whole call at the latest second, when no call has yet to load, is orderly. */
  lemma CallIsOrderly(s: Shared, u: nat, b: nat)
    requires NoneLoading(s, b)
    ensures OrderlyFrom(s, b, Call(u, b))
  {
    var first := [Event(u, Begin(b))];
    OneIsOrderly(s, b, first[0]);
    ResumeIsQuiet(u);
    QuietIsOrderly(Run(s, first), LatestFrom(s, b, first), Resume(u));
    OrderlyConcat(s, b, first, Resume(u));
    assert Call(u, b) == first + Resume(u);
  }

  lemma ReportsOnceMore(s: Shared, u: nat, b: nat)
    requires u < |s.threads| && s.threads[u].Idle? && s.lastSecs != b && s.reportedTotal <= s.total
    ensures Reported(Run(s, Call(u, b)).log, b) == Reported(s.log, b) + 1
  {
    CallAlone(s, u, b);
    ReportedAppend(s.log, Run(s, Call(u, b)).log[|s.log|], b);
  }

  lemma BreaksThrottle(s: Shared, t: nat, u: nat, b: nat)
    requires CanOvertake(s, t, u, b)
    ensures !Throttled(Apply(s, u, Begin(b)), b)
  {
    var begun, settling := Apply(s, u, Begin(b)), Settling(|s.threads|, t, u);
    var settled := Run(begun, settling);
    SettlingLeaves(s, t, u, b);
    SettlingIsQuiet(|s.threads|, t, u);
    QuietIsOrderly(begun, b, settling);
    CallIsOrderly(settled, u, b);
    OrderlyConcat(begun, b, settling, Call(u, b));
    ReportsOnceMore(settled, u, b);
    RunConcat(begun, settling, Call(u, b));
    assert Reported(Run(begun, settling + Call(u, b)).log, b) >= 2;
  }

  /** The first call starts at second 10 and is delayed before its load; meanwhile
      a second call starts and reports at 11. */
  const Overtaken: seq<Event> := [Event(0, Begin(10))] + Call(1, 11)

  /** The first call resumes: its exchange succeeds and puts second 10 back. */
  const WritesBack: seq<Event> := Resume(0)

  /** A third call runs, also at 11. */
  const CallsAgain: seq<Event> := Call(1, 11)

  lemma OvertakenState()
    ensures Run(Start(2), Overtaken) == Shared(2, 2, 11, [Added(10, 1), Idle], [Logged(11, Report(2, 2))], [11])
  {
    var begun := Shared(1, 0, 0, [Added(10, 1), Idle], [], []);
    RunSplits(Start(2), Overtaken);
    assert Apply(Start(2), 0, Begin(10)) == begun;
    CallAlone(begun, 1, 11);
    assert Overtaken[1..] == Call(1, 11);
  }

  lemma WrittenBackState()
    ensures Run(Shared(2, 2, 11, [Added(10, 1), Idle], [Logged(11, Report(2, 2))], [11]), WritesBack)
         == Shared(2, 2, 10, [Idle, Idle], [Logged(11, Report(2, 2))], [11, 10])
  {
    var overtaken := Shared(2, 2, 11, [Added(10, 1), Idle], [Logged(11, Report(2, 2))], [11]);
    ResumeAlone(overtaken, 0);
    assert overtaken.threads[0 := Idle] == [Idle, Idle];
  }

  /** The documented "at most one report per clock second" fails once calls
      overlap: three calls that begin in clock order, at 10, 11 and 11, report
      second 11 twice. */
  lemma OverlapCanReportASecondTwice()
    ensures var s := Run(Start(2), Overtaken + WritesBack + CallsAgain);
            && s.log == [Logged(11, Report(2, 2)), Logged(11, Report(1, 3))]
            && s.writes == [11, 10, 11]
  {
    OvertakenState();
    WrittenBackState();
    CallAlone(Shared(2, 2, 10, [Idle, Idle], [Logged(11, Report(2, 2))], [11, 10]), 1, 11);
    RunConcat(Start(2), Overtaken, WritesBack);
    RunConcat(Start(2), Overtaken + WritesBack, CallsAgain);
  }
}

/** DropCounter called by one thread at a time. */
module DropCounter {
  import opened DropCounterProtocol

  import opened Options

  datatype Counter = Counter(total: nat, reportedTotal: nat, lastSecs: nat)

  function Recorded(c: Counter, now: nat): (Counter, Option<Report>) {
    var total := c.total + 1;
    if c.lastSecs == now then (c.(total := total), None)
    else if total > c.reportedTotal then
      (Counter(total, total, now), Some(Report(total - c.reportedTotal, total)))
    else (Counter(total, c.reportedTotal, now), None)
  }

  class DropCounter {
    var total: nat
    var reportedTotal: nat
    var lastSecs: nat

    ghost function State(): Counter
      reads this
    {
      Counter(total, reportedTotal, lastSecs)
    }

    constructor ()
      ensures State() == Counter(0, 0, 0)
    {
      total, reportedTotal, lastSecs := 0, 0, 0;
    }

    method Record(now: nat) returns (report: Option<Report>)
      modifies this
      ensures (State(), report) == Recorded(old(State()), now)
    {
      total := total + 1;
      var mine, last := total, lastSecs;
      if last == now {
        return None;
      }
      lastSecs := now;
      var previous := reportedTotal;
      reportedTotal := if mine > previous then mine else previous;
      report := if mine > previous then Some(Report(mine - previous, mine)) else None;
    }
  }

  function Alone(s: Shared): Counter {
    Counter(s.total, s.reportedTotal, s.lastSecs)
  }

  lemma SameSecondAlone(s: Shared, t: nat, now: nat)
    requires t < |s.threads| && s.threads[t].Idle? && s.lastSecs == now
    ensures Undisturbed(s, t, now) == s.(total := s.total + 1)
  {
    var added := Apply(s, t, Begin(now));
    assert added.threads[t] == Added(now, s.total + 1);
    assert Apply(added, t, Load).threads == s.threads;
  }

  /** The state in which a call of another second publishes. */
  function Winning(s: Shared, t: nat, now: nat): Shared
    requires t < |s.threads|
  {
    s.(total := s.total + 1, lastSecs := now, writes := s.writes + [now],
       threads := s.threads[t := Won(now, s.total + 1)])
  }

  lemma OtherSecondWins(s: Shared, t: nat, now: nat)
    requires t < |s.threads| && s.threads[t].Idle? && s.lastSecs != now
    ensures Undisturbed(s, t, now) == Apply(Winning(s, t, now), t, Publish)
  {
    var added := Apply(s, t, Begin(now));
    var loaded := Apply(added, t, Load);
    assert added.threads == s.threads[t := Added(now, s.total + 1)];
    assert loaded.threads == s.threads[t := Loaded(now, s.total + 1, s.lastSecs)];
    assert Apply(loaded, t, Exchange).threads == s.threads[t := Won(now, s.total + 1)];
  }

  lemma OtherSecondAlone(s: Shared, t: nat, now: nat)
    requires t < |s.threads| && s.threads[t].Idle? && s.lastSecs != now
    ensures var (s', c) := (Undisturbed(s, t, now), Recorded(Alone(s), now));
            && Alone(s') == c.0 && s'.threads == s.threads
            && s'.log == s.log + if c.1.Some? then [Logged(now, c.1.value)] else []
  {
    OtherSecondWins(s, t, now);
    PublishStep(Winning(s, t, now), t);
    assert s.threads[t := Won(now, s.total + 1)][t := Idle] == s.threads;
  }

  /** A call that runs its four steps undisturbed does what the sequential call does. */
  lemma SequentialCallRefinesSteps(s: Shared, t: nat, now: nat)
    requires t < |s.threads| && s.threads[t].Idle?
    ensures var (s', c) := (Run(s, Call(t, now)), Recorded(Alone(s), now));
            && Alone(s') == c.0 && s'.threads == s.threads
            && s'.log == s.log + if c.1.Some? then [Logged(now, c.1.value)] else []
  {
    RunOfCall(s, t, now);
    if s.lastSecs == now {
      SameSecondAlone(s, t, now);
    } else {
      OtherSecondAlone(s, t, now);
    }
  }

  /** The counter after the calls at the first `n` of these times. */
  function AfterCalls(times: seq<nat>, n: nat): Counter
    requires n <= |times|
  {
    if n == 0 then Counter(0, 0, 0) else Recorded(AfterCalls(times, n - 1), times[n - 1]).0
  }

  function ReportOf(times: seq<nat>, i: nat): Option<Report>
    requires i < |times|
  {
    Recorded(AfterCalls(times, i), times[i]).1
  }

  /** Whether call `i` is at another second than the call before it. */
  predicate SecondChanged(times: seq<nat>, i: nat)
    requires i < |times|
  {
    times[i] != LastWrite(times[..i])
  }

  /** One past the last of the first `n` calls at which the second changed, or 0. */
  function LastChange(times: seq<nat>, n: nat): (k: nat)
    requires n <= |times|
    ensures k <= n
  {
    if n == 0 then 0 else if SecondChanged(times, n - 1) then n else LastChange(times, n - 1)
  }

  lemma {:induction false} CounterAfterCalls(times: seq<nat>, n: nat)
    requires n <= |times|
    ensures AfterCalls(times, n) == Counter(n, LastChange(times, n), LastWrite(times[..n]))
  {
    if n > 0 {
      CounterAfterCalls(times, n - 1);
    }
  }

  /** Whatever the clock does, sequential calls report exactly at each change of
      second, and a report covers every drop since the previous report. */
  lemma SequentialReports(times: seq<nat>, i: nat)
    requires i < |times|
    ensures ReportOf(times, i) ==
            if SecondChanged(times, i) then Some(Report(i + 1 - LastChange(times, i), i + 1)) else None
  {
    CounterAfterCalls(times, i);
  }

  /** With a clock that never goes back and never reads zero, the reports fall
      exactly on the first drop of each distinct second. */
  lemma OneReportPerSecond(times: seq<nat>, i: nat)
    requires i < |times| && Nondecreasing(times) && times[0] > 0
    ensures ReportOf(times, i).Some? <==> forall j :: 0 <= j < i ==> times[j] != times[i]
  {
    SequentialReports(times, i);
    if i > 0 && SecondChanged(times, i) {
      assert forall j :: 0 <= j < i ==> times[j] <= times[i - 1] < times[i];
    }
  }
}
