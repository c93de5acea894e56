/**
 The lock-free counters (`src/stats/stats_collector.hpp`) as interleaved atomic steps. Any number of threads
 open and close sessions, count queries and take snapshots; one step is one access to one atomic counter.
 */
module Stats {
  import opened Bytes

  datatype Counters = Counters(connections: nat, active: nat, queries: nat, window: nat, blocked: nat, monitored: nat)

  /** Where a thread stands inside the member function it is executing. */
  datatype Pc =
    | Idle                                            // no session
    | Opening                                         // connection counted, session not yet
    | Open                                            // session counted
    | Queried(isBlocked: bool)                        // query counted, window not yet
    | Windowed                                        // blocked query, not yet counted as blocked
    | Closing                                         // about to load the active sessions
    | Swapping(current: nat)                          // in the compare-exchange loop
    | Closed                                          // session taken out of the count
    | Uncounted                                       // left the loop on zero without a decrement
    | Reading(seen: seq<nat>)                         // a snapshot, with the counters loaded so far

  datatype State = State(c: Counters, pcs: seq<Pc>)

  /** What a thread does next where it has a choice; `Go` continues the function it is in. */
  datatype Choice = Connect | Query(isBlocked: bool) | MonitoredBlock | Close | Snapshot | Go | SpuriousFailure

  function Inc(n: nat): nat {
    (n + 1) % U64
  }

  /** The load at the head of the loop and the failed exchange both end in the test `current > 0`. */
  function Tested(current: nat): Pc {
    if current > 0 then Swapping(current) else Uncounted
  }

  /** The counters in the order a snapshot loads them. */
  function Counter(c: Counters, k: nat): nat {
    match k
    case 0 => c.connections
    case 1 => c.active
    case 2 => c.queries
    case 3 => c.blocked
    case 4 => c.monitored
    case _ => c.window
  }

  /** The counters after a thread at `pc` takes one step. */
  function Counted(c: Counters, pc: Pc, choice: Choice): Counters {
    match (pc, choice)
    case (Idle, Connect) => c.(connections := Inc(c.connections))
    case (Opening, Go) => c.(active := Inc(c.active))
    case (Open, Query(_)) => c.(queries := Inc(c.queries))
    case (Queried(_), Go) => c.(window := Inc(c.window))
    case (Windowed, Go) => c.(blocked := Inc(c.blocked))
    case (Open, MonitoredBlock) => c.(monitored := Inc(c.monitored))
    case (Swapping(current), Go) => if c.active == current then c.(active := (current - 1) % U64) else c
    case _ => c
  }

  /** Where that step leaves the thread; a choice that is not open to it leaves it where it is. */
  function Moved(c: Counters, pc: Pc, choice: Choice): Pc {
    match (pc, choice)
    case (Idle, Connect) => Opening
    case (Opening, Go) => Open
    case (Open, Query(b)) => Queried(b)
    case (Queried(b), Go) => if b then Windowed else Open
    case (Windowed, Go) => Open
    case (Open, Close) => Closing
    case (Idle, Close) => Closing
    case (Closing, Go) => Tested(c.active)
    case (Swapping(current), Go) => if c.active == current then Closed else Tested(c.active)
    case (Swapping(_), SpuriousFailure) => Tested(c.active)
    case (Idle, Snapshot) => Reading([])
    case (Reading(seen), Go) => if |seen| < 6 then Reading(seen + [Counter(c, |seen|)]) else pc
    case _ => pc
  }

  datatype Step = Step(thread: nat, choice: Choice)

  function Apply(s: State, e: Step): State {
    if e.thread >= |s.pcs| then s
    else
      var pc := s.pcs[e.thread];
      State(Counted(s.c, pc, e.choice), s.pcs[e.thread := Moved(s.c, pc, e.choice)])
  }

  function Run(s: State, run: seq<Step>): State {
    if run == [] then s else Apply(Run(s, run[..|run| - 1]), run[|run| - 1])
  }

  function AllIdle(n: nat): (pcs: seq<Pc>)
    ensures |pcs| == n && forall i :: 0 <= i < n ==> pcs[i] == Idle
  {
    if n == 0 then [] else AllIdle(n - 1) + [Idle]
  }

  /** Fresh counters and `n` threads that have done nothing. */
  function Initial(n: nat): State {
    State(Counters(0, 0, 0, 0, 0, 0), AllIdle(n))
  }

  /** Each close follows its own open, as the session's guard object sees to. */
  predicate Paired(s: State, run: seq<Step>) {
    forall i :: 0 <= i < |run| ==> OwnClose(Run(s, run[..i]), run[i])
  }

  predicate OwnClose(s: State, e: Step) {
    e.thread < |s.pcs| && s.pcs[e.thread] == Idle ==> e.choice != Close
  }

  // --------------------------------------------------------------- counting threads

  datatype Kind = InSession | JoiningCount | BeforeWindow | BeforeBlocked

  predicate Is(kind: Kind, pc: Pc) {
    match kind
    case InSession => pc.Open? || pc.Queried? || pc.Windowed? || pc.Closing? || pc.Swapping?
    case JoiningCount => pc.Opening?
    case BeforeWindow => pc.Queried?
    case BeforeBlocked => pc.Windowed? || (pc.Queried? && pc.isBlocked)
  }

  function One(b: bool): nat {
    if b then 1 else 0
  }

  function Count(kind: Kind, pcs: seq<Pc>): nat {
    if pcs == [] then 0 else Count(kind, pcs[..|pcs| - 1]) + One(Is(kind, pcs[|pcs| - 1]))
  }

  lemma {:induction false} CountUpdate(kind: Kind, pcs: seq<Pc>, t: nat, pc: Pc)
    requires t < |pcs|
    ensures Count(kind, pcs[t := pc]) + One(Is(kind, pcs[t])) == Count(kind, pcs) + One(Is(kind, pc))
    decreases |pcs|
  {
    hide Is;
    var n := |pcs| - 1;
    if t < n {
      CountUpdate(kind, pcs[..n], t, pc);
      assert pcs[t := pc][..n] == pcs[..n][t := pc];
    } else {
      assert pcs[t := pc][..n] == pcs[..n];
    }
  }

  lemma {:induction false} CountPresent(kind: Kind, pcs: seq<Pc>, t: nat)
    requires t < |pcs| && Is(kind, pcs[t])
    ensures Count(kind, pcs) >= 1
    decreases |pcs|
  {
    if t < |pcs| - 1 { CountPresent(kind, pcs[..|pcs| - 1], t); }
  }

  lemma {:induction false} NoneIdle(kind: Kind, n: nat)
    ensures Count(kind, AllIdle(n)) == 0
  {
    if n > 0 {
      NoneIdle(kind, n - 1);
      assert AllIdle(n)[..n - 1] == AllIdle(n - 1);
    }
  }

  // ------------------------------------------------------------------- invariants

  /** After fewer than 2^64 steps no counter has wrapped, and the exchange loop runs only on a positive value. */
  predicate Bounded(s: State, steps: nat) {
    && s.c.connections <= steps && s.c.active <= steps && s.c.queries <= steps
    && s.c.window <= steps && s.c.blocked <= steps && s.c.monitored <= steps
    && forall t :: 0 <= t < |s.pcs| && s.pcs[t].Swapping? ==> s.pcs[t].current >= 1
  }

  /** What holds in every state of every run. */
  predicate Consistent(s: State) {
    && s.c.queries == s.c.window + Count(BeforeWindow, s.pcs)
    && s.c.queries >= s.c.blocked + Count(BeforeBlocked, s.pcs)
  }

  /** What holds besides when each close follows its own open. */
  predicate Matched(s: State) {
    && s.c.active == Count(InSession, s.pcs)
    && s.c.connections >= s.c.active + Count(JoiningCount, s.pcs)
    && Uncounted !in s.pcs
  }

  lemma StepBounded(s: State, e: Step, steps: nat)
    requires Bounded(s, steps) && steps + 1 < U64
    ensures Bounded(Apply(s, e), steps + 1)
  {
  }

  lemma StepConsistent(s: State, e: Step, steps: nat)
    requires Consistent(s) && Bounded(s, steps) && steps + 1 < U64
    ensures Consistent(Apply(s, e))
  {
    hide Count;
    if e.thread < |s.pcs| {
      var pc := Moved(s.c, s.pcs[e.thread], e.choice);
      CountUpdate(BeforeWindow, s.pcs, e.thread, pc);
      CountUpdate(BeforeBlocked, s.pcs, e.thread, pc);
    }
  }

  lemma StepMatched(s: State, e: Step, steps: nat)
    requires Matched(s) && Bounded(s, steps) && steps + 1 < U64 && OwnClose(s, e)
    ensures Matched(Apply(s, e))
  {
    hide Count;
    if e.thread < |s.pcs| {
      var pc := Moved(s.c, s.pcs[e.thread], e.choice);
      CountUpdate(InSession, s.pcs, e.thread, pc);
      CountUpdate(JoiningCount, s.pcs, e.thread, pc);
      if Is(InSession, s.pcs[e.thread]) {
        CountPresent(InSession, s.pcs, e.thread);
      }
    }
  }

  // --------------------------------------------------------------------- every run

  lemma RunStep(s: State, run: seq<Step>, n: nat)
    requires n < |run|
    ensures Run(s, run[..n + 1]) == Apply(Run(s, run[..n]), run[n])
  {
    hide Apply;
    assert run[..n + 1][..n] == run[..n];
  }

  /** In every state of every run, blocked queries are at most the queries, and every query counted is in the window
      count or about to be. */
  lemma {:induction false} EveryRunConsistent(threads: nat, run: seq<Step>, n: nat)
    requires |run| < U64 && n <= |run|
    ensures var s := Run(Initial(threads), run[..n]);
      Consistent(s) && s.c.blocked <= s.c.queries && Bounded(s, n)
    decreases n
  {
    hide Apply, Count;
    if n == 0 {
      NoneIdle(BeforeWindow, threads);
      NoneIdle(BeforeBlocked, threads);
    } else {
      EveryRunConsistent(threads, run, n - 1);
      RunStep(Initial(threads), run, n - 1);
      var s := Run(Initial(threads), run[..n - 1]);
      StepConsistent(s, run[n - 1], n - 1);
      StepBounded(s, run[n - 1], n - 1);
    }
  }

  /** No step of any run, not even a stray close, takes the active sessions below zero: they move by one at most. */
  lemma ActiveNeverWraps(threads: nat, run: seq<Step>, n: nat)
    requires |run| < U64 && n < |run|
    ensures var was, now := Run(Initial(threads), run[..n]).c.active, Run(Initial(threads), run[..n + 1]).c.active;
      was - 1 <= now <= was + 1
  {
    EveryRunConsistent(threads, run, n);
    RunStep(Initial(threads), run, n);
    hide Run, Consistent;
  }

  /** When each close follows its own open, the active sessions are exactly those between the two, however the steps
      interleave: no decrement is lost through the exit on zero. */
  lemma {:induction false} EveryRunMatched(threads: nat, run: seq<Step>, n: nat)
    requires |run| < U64 && n <= |run| && Paired(Initial(threads), run)
    ensures var s := Run(Initial(threads), run[..n]);
      Matched(s) && s.c.active <= s.c.connections
    decreases n
  {
    hide Apply, Count, OwnClose, Bounded;
    if n == 0 {
      NoneIdle(InSession, threads);
      NoneIdle(JoiningCount, threads);
    } else {
      EveryRunMatched(threads, run, n - 1);
      EveryRunConsistent(threads, run, n - 1);
      RunStep(Initial(threads), run, n - 1);
      StepMatched(Run(Initial(threads), run[..n - 1]), run[n - 1], n - 1);
    }
  }

  // ------------------------------------------------------------------ query counts

  /** The step starts a query, of the given kind if one is given. */
  predicate Starts(s: State, e: Step, onlyBlocked: bool) {
    && e.thread < |s.pcs| && s.pcs[e.thread] == Open && e.choice.Query? && (onlyBlocked ==> e.choice.isBlocked)
  }

  /** The step counts a query as blocked. */
  predicate CountsBlocked(s: State, e: Step) {
    e.thread < |s.pcs| && s.pcs[e.thread] == Windowed && e.choice == Go
  }

  /** How many queries steps `a` to `b` of the run start. */
  function Started(s: State, run: seq<Step>, a: nat, b: nat, onlyBlocked: bool): nat
    requires a <= b <= |run|
  {
    if a == b then 0
    else Started(s, run, a, b - 1, onlyBlocked) + One(Starts(Run(s, run[..b - 1]), run[b - 1], onlyBlocked))
  }

  /** How many queries steps `a` to `b` of the run count as blocked. */
  function BlockedSteps(s: State, run: seq<Step>, a: nat, b: nat): nat
    requires a <= b <= |run|
  {
    if a == b then 0 else BlockedSteps(s, run, a, b - 1) + One(CountsBlocked(Run(s, run[..b - 1]), run[b - 1]))
  }

  lemma StepQueries(s: State, e: Step, steps: nat)
    requires Bounded(s, steps) && steps + 1 < U64
    ensures var t := Apply(s, e);
      && t.c.queries == s.c.queries + One(Starts(s, e, false))
      && t.c.blocked == s.c.blocked + One(CountsBlocked(s, e))
      && t.c.blocked + Count(BeforeBlocked, t.pcs)
         == s.c.blocked + Count(BeforeBlocked, s.pcs) + One(Starts(s, e, true))
  {
    hide Count;
    if e.thread < |s.pcs| {
      CountUpdate(BeforeBlocked, s.pcs, e.thread, Moved(s.c, s.pcs[e.thread], e.choice));
    }
  }

  /** From one moment to another, every query started is counted once, and every blocked one is counted as blocked or
      about to be. */
  lemma {:induction false} QueriesBetween(threads: nat, run: seq<Step>, a: nat, b: nat)
    requires |run| < U64 && a <= b <= |run|
    ensures var s, t := Run(Initial(threads), run[..a]), Run(Initial(threads), run[..b]);
      && t.c.queries == s.c.queries + Started(Initial(threads), run, a, b, false)
      && t.c.blocked + Count(BeforeBlocked, t.pcs)
         == s.c.blocked + Count(BeforeBlocked, s.pcs) + Started(Initial(threads), run, a, b, true)
    decreases b
  {
    hide Apply, Count, Starts, CountsBlocked, Consistent, Bounded, Run;
    if a < b {
      QueriesBetween(threads, run, a, b - 1);
      EveryRunConsistent(threads, run, b - 1);
      RunStep(Initial(threads), run, b - 1);
      StepQueries(Run(Initial(threads), run[..b - 1]), run[b - 1], b - 1);
    }
  }

  /** So over a whole run the counters hold exactly the queries started. */
  lemma QueriesCounted(threads: nat, run: seq<Step>, n: nat)
    requires |run| < U64 && n <= |run|
    ensures var s := Run(Initial(threads), run[..n]);
      && s.c.queries == Started(Initial(threads), run, 0, n, false)
      && s.c.blocked + Count(BeforeBlocked, s.pcs) == Started(Initial(threads), run, 0, n, true)
  {
    assert Run(Initial(threads), run[..0]) == Initial(threads);
    hide Run, Count, Started;
    QueriesBetween(threads, run, 0, n);
    NoneIdle(BeforeBlocked, threads);
  }

  lemma {:induction false} BlockedGrowth(threads: nat, run: seq<Step>, a: nat, b: nat)
    requires |run| < U64 && a <= b <= |run|
    ensures Run(Initial(threads), run[..b]).c.blocked
         == Run(Initial(threads), run[..a]).c.blocked + BlockedSteps(Initial(threads), run, a, b)
    decreases b
  {
    hide Apply, Count, Starts, CountsBlocked, Consistent, Bounded, Run;
    if a < b {
      BlockedGrowth(threads, run, a, b - 1);
      EveryRunConsistent(threads, run, b - 1);
      RunStep(Initial(threads), run, b - 1);
      StepQueries(Run(Initial(threads), run[..b - 1]), run[b - 1], b - 1);
    }
  }

  // --------------------------------------------------------------------- snapshots

  datatype StatsSnapshot = StatsSnapshot(connections: nat, active: nat, queries: nat, blocked: nat, monitored: nat)

  /** What `snapshot` returns for the values it loaded: the active sessions are cut to the connections. */
  function Reported(seen: seq<nat>): (r: StatsSnapshot)
    requires |seen| == 6
    ensures r.active <= r.connections
  {
    StatsSnapshot(seen[0], if seen[1] <= seen[0] then seen[1] else seen[0], seen[2], seen[3], seen[4])
  }

  /** Thread `t` is a snapshot that has loaded `seen`. */
  predicate IsReading(s: State, t: nat, seen: seq<nat>) {
    t < |s.pcs| && s.pcs[t] == Reading(seen)
  }

  lemma StepReading(s: State, e: Step, t: nat, seen: seq<nat>)
    requires IsReading(Apply(s, e), t, seen)
    ensures || IsReading(s, t, seen)
            || (seen == [] && t < |s.pcs| && s.pcs[t] == Idle)
            || (seen != [] && e.thread == t && IsReading(s, t, seen[..|seen| - 1]) && |seen| <= 6
                && seen[|seen| - 1] == Counter(s.c, |seen| - 1))
  {
  }

  /** Each value a snapshot holds is that of its counter at some moment `a`, when the earlier ones had been loaded. */
  lemma {:induction false} LoadedAt(threads: nat, run: seq<Step>, n: nat, t: nat, seen: seq<nat>, k: nat)
    returns (a: nat)
    requires n <= |run| && IsReading(Run(Initial(threads), run[..n]), t, seen) && k < |seen|
    ensures a < n && IsReading(Run(Initial(threads), run[..a]), t, seen[..k])
    ensures seen[k] == Counter(Run(Initial(threads), run[..a]).c, k)
    decreases n
  {
    hide Apply, Counter;
    assert n > 0;
    RunStep(Initial(threads), run, n - 1);
    StepReading(Run(Initial(threads), run[..n - 1]), run[n - 1], t, seen);
    if IsReading(Run(Initial(threads), run[..n - 1]), t, seen) {
      a := LoadedAt(threads, run, n - 1, t, seen, k);
    } else if k == |seen| - 1 {
      a := n - 1;
    } else {
      var init := seen[..|seen| - 1];
      a := LoadedAt(threads, run, n - 1, t, init, k);
      assert init[..k] == seen[..k];
    }
  }

  /** A snapshot shows at most as many blocked queries as queries exactly when, between its two loads at moments `a`
      and `b`, no more queries were counted as blocked than the counters were apart at `a`. */
  lemma SnapshotTornExactly(threads: nat, run: seq<Step>, n: nat, t: nat, seen: seq<nat>) returns (a: nat, b: nat)
    requires |run| < U64 && n <= |run| && IsReading(Run(Initial(threads), run[..n]), t, seen) && |seen| == 6
    ensures a < b < n
    ensures IsReading(Run(Initial(threads), run[..a]), t, seen[..2])
    ensures IsReading(Run(Initial(threads), run[..b]), t, seen[..3])
    ensures var c := Run(Initial(threads), run[..a]).c;
      && c.blocked <= c.queries
      && (Reported(seen).blocked <= Reported(seen).queries
          <==> BlockedSteps(Initial(threads), run, a, b) <= c.queries - c.blocked)
  {
    hide Run, Consistent, Bounded, BlockedSteps;
    b := LoadedAt(threads, run, n, t, seen, 3);
    a := LoadedAt(threads, run, b, t, seen[..3], 2);
    assert seen[..3][..2] == seen[..2];
    EveryRunConsistent(threads, run, a);
    BlockedGrowth(threads, run, a, b);
  }

  /** What a reader of a snapshot can rely on: the blocked queries shown exceed the queries shown by no more than the
      blocked queries that started between the two loads, so that none started means none in excess. */
  lemma SnapshotExcess(threads: nat, run: seq<Step>, n: nat, t: nat, seen: seq<nat>) returns (a: nat, b: nat)
    requires |run| < U64 && n <= |run| && IsReading(Run(Initial(threads), run[..n]), t, seen) && |seen| == 6
    ensures a < b < n
    ensures IsReading(Run(Initial(threads), run[..a]), t, seen[..2])
    ensures IsReading(Run(Initial(threads), run[..b]), t, seen[..3])
    ensures Reported(seen).blocked <= Reported(seen).queries + Started(Initial(threads), run, a, b, true)
  {
    hide Run, Bounded, Started, Count;
    b := LoadedAt(threads, run, n, t, seen, 3);
    a := LoadedAt(threads, run, b, t, seen[..3], 2);
    assert seen[..3][..2] == seen[..2];
    EveryRunConsistent(threads, run, a);
    QueriesBetween(threads, run, a, b);
  }

  /** A snapshot by thread 0, with a blocked query of thread 1 between the loads of the two query counters. */
  const TORN: seq<Step> :=
    [Step(1, Connect), Step(1, Go), Step(0, Snapshot), Step(0, Go), Step(0, Go), Step(0, Go),
     Step(1, Query(true)), Step(1, Go), Step(1, Go), Step(0, Go), Step(0, Go), Step(0, Go)]

  lemma SessionStep(n: nat, c: Counters, reader: Pc, session: Pc)
    requires n < |TORN| && TORN[n].thread == 1 && Run(Initial(2), TORN[..n]) == State(c, [reader, session])
    ensures Run(Initial(2), TORN[..n + 1])
         == State(Counted(c, session, TORN[n].choice), [reader, Moved(c, session, TORN[n].choice)])
  {
    hide Counted, Moved;
    RunStep(Initial(2), TORN, n);
  }

  lemma ReaderStep(n: nat, c: Counters, seen: seq<nat>, session: Pc)
    requires n < |TORN| && TORN[n] == Step(0, Go) && |seen| < 6
    requires Run(Initial(2), TORN[..n]) == State(c, [Reading(seen), session])
    ensures Run(Initial(2), TORN[..n + 1]) == State(c, [Reading(seen + [Counter(c, |seen|)]), session])
  {
    RunStep(Initial(2), TORN, n);
  }

  /** That snapshot shows one blocked query and no query. */
  lemma TornSnapshot()
    ensures Paired(Initial(2), TORN) && IsReading(Run(Initial(2), TORN), 0, [1, 1, 0, 1, 0, 1])
    ensures Reported([1, 1, 0, 1, 0, 1]).blocked > Reported([1, 1, 0, 1, 0, 1]).queries
  {
    TornFirstHalf();
    hide Run, AllIdle;
    var before, after := Counters(1, 1, 0, 0, 0, 0), Counters(1, 1, 1, 1, 1, 0);
    ReaderStep(4, before, [1], Open);
    assert [1] + [1] == [1, 1];
    ReaderStep(5, before, [1, 1], Open);
    assert [1, 1] + [0] == [1, 1, 0];
    SessionStep(6, before, Reading([1, 1, 0]), Open);
    SessionStep(7, Counters(1, 1, 1, 0, 0, 0), Reading([1, 1, 0]), Queried(true));
    SessionStep(8, Counters(1, 1, 1, 1, 0, 0), Reading([1, 1, 0]), Windowed);
    ReaderStep(9, after, [1, 1, 0], Open);
    assert [1, 1, 0] + [1] == [1, 1, 0, 1];
    ReaderStep(10, after, [1, 1, 0, 1], Open);
    assert [1, 1, 0, 1] + [0] == [1, 1, 0, 1, 0];
    ReaderStep(11, after, [1, 1, 0, 1, 0], Open);
    assert TORN[..12] == TORN;
  }

  lemma TornFirstHalf()
    ensures Run(Initial(2), TORN[..4]) == State(Counters(1, 1, 0, 0, 0, 0), [Reading([1]), Open])
  {
    hide Run, AllIdle;
    TornStart();
    SessionStep(0, Counters(0, 0, 0, 0, 0, 0), Idle, Idle);
    SessionStep(1, Counters(1, 0, 0, 0, 0, 0), Idle, Opening);
    ReaderStart(2, Counters(1, 1, 0, 0, 0, 0), Open);
    var none: seq<nat> := [];
    ReaderStep(3, Counters(1, 1, 0, 0, 0, 0), none, Open);
    assert none + [1] == [1];
  }

  lemma TornStart()
    ensures Run(Initial(2), TORN[..0]) == State(Counters(0, 0, 0, 0, 0, 0), [Idle, Idle])
  {
    assert TORN[..0] == [] && AllIdle(2) == [Idle, Idle];
  }

  lemma ReaderStart(n: nat, c: Counters, session: Pc)
    requires n < |TORN| && TORN[n] == Step(0, Snapshot) && Run(Initial(2), TORN[..n]) == State(c, [Idle, session])
    ensures Run(Initial(2), TORN[..n + 1]) == State(c, [Reading([]), session])
  {
    RunStep(Initial(2), TORN, n);
  }

  // ------------------------------------------------- the other counters, by their steps

  datatype StepKind = Connecting | Joining | Leaving | Monitoring

  /** The step that counts a connection, a session, its end, or a monitored block. */
  predicate Happens(kind: StepKind, s: State, e: Step) {
    && e.thread < |s.pcs|
    && match kind
       case Connecting => s.pcs[e.thread] == Idle && e.choice == Connect
       case Joining => s.pcs[e.thread] == Opening && e.choice == Go
       case Leaving => s.pcs[e.thread] == Swapping(s.c.active) && e.choice == Go
       case Monitoring => s.pcs[e.thread] == Open && e.choice == MonitoredBlock
  }

  /** How many such steps the first `n` of the run hold. */
  function Happened(kind: StepKind, s: State, run: seq<Step>, n: nat): nat
    requires n <= |run|
  {
    if n == 0 then 0 else Happened(kind, s, run, n - 1) + One(Happens(kind, Run(s, run[..n - 1]), run[n - 1]))
  }

  lemma StepCounters(s: State, e: Step, steps: nat)
    requires Bounded(s, steps) && steps + 1 < U64
    ensures var t := Apply(s, e);
      && t.c.connections == s.c.connections + One(Happens(Connecting, s, e))
      && t.c.active + One(Happens(Leaving, s, e)) == s.c.active + One(Happens(Joining, s, e))
      && t.c.monitored == s.c.monitored + One(Happens(Monitoring, s, e))
  {
  }

  /** Over every run the counters are numbers of steps: connections made, sessions joined less sessions left, and
      monitored blocks. */
  lemma {:induction false} CountersCounted(threads: nat, run: seq<Step>, n: nat)
    requires |run| < U64 && n <= |run|
    ensures var s, c := Initial(threads), Run(Initial(threads), run[..n]).c;
      && c.connections == Happened(Connecting, s, run, n)
      && c.active + Happened(Leaving, s, run, n) == Happened(Joining, s, run, n)
      && c.monitored == Happened(Monitoring, s, run, n)
    decreases n
  {
    hide Apply, Happens, Consistent, Bounded;
    if n > 0 {
      CountersCounted(threads, run, n - 1);
      EveryRunConsistent(threads, run, n - 1);
      RunStep(Initial(threads), run, n - 1);
      StepCounters(Run(Initial(threads), run[..n - 1]), run[n - 1], n - 1);
    }
  }

  /** What a snapshot shows: each counter at its own moment, the moments in this order, and the active sessions at most
      the connections shown. */
  lemma SnapshotShows(threads: nat, run: seq<Step>, n: nat, t: nat, seen: seq<nat>)
    returns (m0: nat, m1: nat, m2: nat, m3: nat, m4: nat)
    requires n <= |run| && IsReading(Run(Initial(threads), run[..n]), t, seen) && |seen| == 6
    ensures m0 < m1 < m2 < m3 < m4 < n
    ensures var r, active := Reported(seen), Run(Initial(threads), run[..m1]).c.active;
      && r.connections == Run(Initial(threads), run[..m0]).c.connections
      && r.active == (if active <= r.connections then active else r.connections)
      && r.queries == Run(Initial(threads), run[..m2]).c.queries
      && r.blocked == Run(Initial(threads), run[..m3]).c.blocked
      && r.monitored == Run(Initial(threads), run[..m4]).c.monitored
  {
    hide Run;
    m4 := LoadedAt(threads, run, n, t, seen, 4);
    m3 := LoadedAt(threads, run, m4, t, seen[..4], 3);
    m2 := LoadedAt(threads, run, m3, t, seen[..4][..3], 2);
    m1 := LoadedAt(threads, run, m2, t, seen[..4][..3][..2], 1);
    m0 := LoadedAt(threads, run, m1, t, seen[..4][..3][..2][..1], 0);
  }
}
