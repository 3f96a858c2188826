/** Every interleaving of booking requests is explained by running the same
    requests one at a time, in the order in which they were decided. */
module BookingLinearizability {
  import opened Domain
  import opened BookingRepository
  import opened BookingService
  import opened BookingConcurrency
  import opened TimeUtil

  /** The collection after the logged requests, run one at a time. */
  function Replayed(db: Database, log: seq<Entry>): Database {
    if log == [] then db
    else
      var e := log[|log| - 1];
      Apply(Replayed(db, log[..|log| - 1]), e.req, e.env, e.freshId).0
  }

  /** Run one at a time, every logged request gives its logged answer. */
  predicate Explains(db: Database, log: seq<Entry>) {
    log != [] ==>
      var e := log[|log| - 1];
      var before := log[..|log| - 1];
      && Explains(db, before)
      && e.freshId !in Replayed(db, before)
      && Apply(Replayed(db, before), e.req, e.env, e.freshId).1 == e.outcome
  }

  predicate Decided(pc: Pc) {
    pc.Written? || pc.Releasing? || pc.Done?
  }

  /** Entry `k` is the one of thread `tid`, with its request and answer. */
  predicate LogsThread(log: seq<Entry>, k: int, tid: Tid, th: Thread)
    requires 0 <= k < |log| && Decided(th.pc)
  {
    log[k].tid == tid && log[k].req == th.req && log[k].outcome == th.pc.outcome
  }

  predicate IsLogged(log: seq<Entry>, tid: Tid) {
    exists k :: 0 <= k < |log| && log[k].tid == tid
  }

  ghost predicate AnswersAreLogged(s: System) {
    && (forall tid :: tid in s.threads && Decided(s.threads[tid].pc) ==>
          exists k :: 0 <= k < |s.log| && LogsThread(s.log, k, tid, s.threads[tid]))
    && (forall tid :: tid in s.threads && !Decided(s.threads[tid].pc) ==> !IsLogged(s.log, tid))
    && (forall i, j :: 0 <= i < j < |s.log| ==> s.log[i].tid != s.log[j].tid)
  }

  /** Nothing is in the log but decided requests of threads. */
  ghost predicate LogIsOfThreads(s: System) {
    forall k :: 0 <= k < |s.log| ==>
      var tid := s.log[k].tid;
      tid in s.threads && Decided(s.threads[tid].pc) && LogsThread(s.log, k, tid, s.threads[tid])
  }

  ghost predicate Linearized(db: Database, s: System) {
    Replayed(db, s.log) == s.db && Explains(db, s.log) && AnswersAreLogged(s) && LogIsOfThreads(s)
  }

  // ----- runs -----

  ghost predicate IsRun(s: System, run: seq<Move>)
    requires Consistent(s)
    decreases run
  {
    run != [] ==> Enabled(s, run[0]) && (StepIsConsistent(s, run[0]); IsRun(Next(s, run[0]), run[1..]))
  }

  ghost function End(s: System, run: seq<Move>): (e: System)
    requires Consistent(s) && IsRun(s, run)
    ensures Consistent(e)
    decreases run
  {
    if run == [] then s else (StepIsConsistent(s, run[0]); End(Next(s, run[0]), run[1..]))
  }

  /** No request has begun. */
  ghost predicate Fresh(s: System) {
    && NoDoubleBooking(s.db)
    && s.locks == map[]
    && s.log == []
    && forall tid :: tid in s.threads ==> s.threads[tid].pc.Start?
  }

  // ----- one step -----

  /** The step from `s` to `e` either decides the moving request, exactly as
      running it alone on the present collection would, or leaves collection and
      log alone. */
  ghost predicate DecidesAtomically(s: System, e: System, m: Move)
    requires OnlyMoves(s, e, m.tid)
  {
    var th, pc := s.threads[m.tid], e.threads[m.tid].pc;
    if !Decided(th.pc) && Decided(pc) then
      exists env :: e.log == s.log + [Entry(m.tid, th.req, env, m.freshId, pc.outcome)] &&
                    Apply(s.db, th.req, env, m.freshId) == (e.db, pc.outcome)
    else
      && e.log == s.log && e.db == s.db
      && (Decided(th.pc) ==> Decided(pc) && pc.outcome == th.pc.outcome)
  }

  lemma StartDecides(s: System, m: Move)
    requires m.tid in s.threads && s.threads[m.tid].pc.Start?
    ensures DecidesAtomically(s, FromStart(s, m), m)
  {
    var e, req := FromStart(s, m), s.threads[m.tid].req;
    if Decided(e.threads[m.tid].pc) {
      assert Apply(s.db, req, m.env, m.freshId) == (s.db, e.threads[m.tid].pc.outcome);
    }
  }

  lemma HeldDecides(s: System, m: Move, table: nat)
    requires m.tid in s.threads && s.threads[m.tid].pc == Held(table)
    ensures DecidesAtomically(s, FromHeld(s, m, table), m)
  {
    var e, req := FromHeld(s, m, table), s.threads[m.tid].req;
    if Decided(e.threads[m.tid].pc) {
      assert Apply(s.db, req, m.env, m.freshId) == (s.db, e.threads[m.tid].pc.outcome);
    }
  }

  lemma FetchedDecides(s: System, m: Move, table: nat, found: Booking)
    requires m.tid in s.threads && s.threads[m.tid].pc == Fetched(table, found)
    requires Locally(s.db, s.threads[m.tid])
    ensures DecidesAtomically(s, FromFetched(s, m, table, found), m)
  {
    var e, req := FromFetched(s, m, table, found), s.threads[m.tid].req;
    if Decided(e.threads[m.tid].pc) {
      assert Apply(s.db, req, m.env, m.freshId) == (s.db, e.threads[m.tid].pc.outcome);
    }
  }

  lemma ParsedDecides(s: System, m: Move, table: nat, env: Env)
    requires m.tid in s.threads && s.threads[m.tid].pc == Parsed(table, env)
    requires Locally(s.db, s.threads[m.tid])
    ensures DecidesAtomically(s, FromParsed(s, m, table, env), m)
  {
    var e, req := FromParsed(s, m, table, env), s.threads[m.tid].req;
    if Decided(e.threads[m.tid].pc) {
      assert Apply(s.db, req, env, m.freshId) == (s.db, e.threads[m.tid].pc.outcome);
    }
  }

  lemma ReadyDecides(s: System, m: Move, table: nat, env: Env, doc: Booking)
    requires m.tid in s.threads && s.threads[m.tid].pc == Ready(table, env, doc)
    requires Locally(s.db, s.threads[m.tid])
    ensures DecidesAtomically(s, FromReady(s, m, table, env, doc), m)
  {
    WriteIsAtomicEffect(s, m, table, env, doc);
    var e, req := FromReady(s, m, table, env, doc), s.threads[m.tid].req;
    assert Apply(s.db, req, env, m.freshId) == (e.db, e.threads[m.tid].pc.outcome);
  }

  /** Every step decides its request atomically or decides nothing. */
  lemma StepDecidesAtomically(s: System, m: Move)
    requires Consistent(s) && Enabled(s, m)
    ensures DecidesAtomically(s, Next(s, m), m)
  {
    assert Locally(s.db, s.threads[m.tid]);
    match s.threads[m.tid].pc {
      case Start => StartDecides(s, m);
      case Waiting(_) =>
      case Held(table) => HeldDecides(s, m, table);
      case Fetched(table, found) => FetchedDecides(s, m, table, found);
      case Parsed(table, env) => ParsedDecides(s, m, table, env);
      case Ready(table, env, doc) => ReadyDecides(s, m, table, env, doc);
      case Written(_, _) =>
      case Releasing(_, _) =>
    }
  }

  lemma AnswersStayLogged(s: System, e: System, m: Move)
    requires AnswersAreLogged(s) && OnlyMoves(s, e, m.tid) && DecidesAtomically(s, e, m)
    ensures AnswersAreLogged(e)
  {
    forall tid | tid in e.threads && Decided(e.threads[tid].pc)
      ensures exists k :: 0 <= k < |e.log| && LogsThread(e.log, k, tid, e.threads[tid])
    {
      if Decided(s.threads[tid].pc) {
        var k :| 0 <= k < |s.log| && LogsThread(s.log, k, tid, s.threads[tid]);
        assert LogsThread(e.log, k, tid, e.threads[tid]);
      } else {
        assert LogsThread(e.log, |s.log|, tid, e.threads[tid]);
      }
    }
    if |e.log| > |s.log| {
      forall i | 0 <= i < |s.log|
        ensures s.log[i].tid != m.tid
      {
        assert s.log[i].tid == m.tid ==> IsLogged(s.log, m.tid);
      }
    }
  }

  lemma LogStaysOfThreads(s: System, e: System, m: Move)
    requires LogIsOfThreads(s) && OnlyMoves(s, e, m.tid) && DecidesAtomically(s, e, m)
    ensures LogIsOfThreads(e)
  {
    forall k | 0 <= k < |e.log|
      ensures var tid := e.log[k].tid;
              tid in e.threads && Decided(e.threads[tid].pc) && LogsThread(e.log, k, tid, e.threads[tid])
    {
      if k < |s.log| {
        assert e.log[k] == s.log[k] && LogsThread(s.log, k, s.log[k].tid, s.threads[s.log[k].tid]);
      }
    }
  }

  lemma ReplayOneMore(db: Database, log: seq<Entry>, entry: Entry)
    ensures var before := Replayed(db, log);
            var (after, outcome) := Apply(before, entry.req, entry.env, entry.freshId);
            && Replayed(db, log + [entry]) == after
            && (Explains(db, log + [entry]) <==>
                  Explains(db, log) && entry.freshId !in before && outcome == entry.outcome)
  {
    assert (log + [entry])[..|log|] == log;
  }

  lemma StepIsReplayed(db: Database, s: System, e: System, m: Move)
    requires OnlyMoves(s, e, m.tid) && DecidesAtomically(s, e, m) && m.freshId !in s.db
    requires Replayed(db, s.log) == s.db && Explains(db, s.log)
    ensures Replayed(db, e.log) == e.db && Explains(db, e.log)
  {
    if e.log != s.log {
      ReplayOneMore(db, s.log, e.log[|s.log|]);
    }
  }

  lemma StepIsLinearized(db: Database, s: System, m: Move)
    requires Consistent(s) && Enabled(s, m) && Linearized(db, s)
    ensures Linearized(db, Next(s, m))
  {
    StepDecidesAtomically(s, m);
    StepIsReplayed(db, s, Next(s, m), m);
    AnswersStayLogged(s, Next(s, m), m);
    LogStaysOfThreads(s, Next(s, m), m);
  }

  lemma {:induction false} RunIsLinearized(db: Database, s: System, run: seq<Move>)
    requires Consistent(s) && IsRun(s, run) && Linearized(db, s)
    ensures Linearized(db, End(s, run))
    decreases run
  {
    if run == [] {
    } else {
      StepIsConsistent(s, run[0]);
      StepIsLinearized(db, s, run[0]);
      RunIsLinearized(db, Next(s, run[0]), run[1..]);
    }
  }

  lemma FreshIsConsistent(s: System)
    requires Fresh(s)
    ensures Consistent(s) && Linearized(s.db, s)
  {
  }

  /** The same threads with the same requests. */
  ghost predicate SameRequests(s: System, e: System) {
    forall tid :: (tid in s.threads <==> tid in e.threads) &&
                  (tid in s.threads ==> e.threads[tid].req == s.threads[tid].req)
  }

  lemma {:induction false} RequestsStay(s: System, run: seq<Move>)
    requires Consistent(s) && IsRun(s, run)
    ensures SameRequests(s, End(s, run))
    decreases run
  {
    if run == [] {
    } else {
      StepIsConsistent(s, run[0]);
      RequestsStay(Next(s, run[0]), run[1..]);
      SameRequestsJoin(s, Next(s, run[0]), End(s, run), run[0].tid);
    }
  }

  lemma SameRequestsJoin(s: System, next: System, e: System, tid: Tid)
    requires OnlyMoves(s, next, tid) && SameRequests(next, e)
    ensures SameRequests(s, e)
  {
  }

  // ----- the clock and configuration an entry names -----

  predicate HasEnv(pc: Pc) {
    pc.Parsed? || pc.Ready?
  }

  /** Some move of thread `tid` read `env`. */
  predicate WasRead(past: seq<Move>, tid: Tid, env: Env) {
    exists i :: 0 <= i < |past| && past[i].tid == tid && past[i].env == env
  }

  /** Every entry, and every thread on its way, names what one of its own moves read. */
  ghost predicate EnvsWereRead(s: System, past: seq<Move>) {
    && (forall k :: 0 <= k < |s.log| ==> WasRead(past, s.log[k].tid, s.log[k].env))
    && (forall tid :: tid in s.threads && HasEnv(s.threads[tid].pc) ==> WasRead(past, tid, s.threads[tid].pc.env))
  }

  /** The environment is the one just read or the one the thread had. */
  predicate KnownEnv(s: System, m: Move, env: Env)
    requires m.tid in s.threads
  {
    env == m.env || (HasEnv(s.threads[m.tid].pc) && env == s.threads[m.tid].pc.env)
  }

  /** The step from `s` to `e` names no environment that its thread does not know. */
  ghost predicate ReadsEnv(s: System, e: System, m: Move)
    requires m.tid in s.threads && m.tid in e.threads
  {
    && (HasEnv(e.threads[m.tid].pc) ==> KnownEnv(s, m, e.threads[m.tid].pc.env))
    && (e.log == s.log ||
        (|e.log| == |s.log| + 1 && e.log[..|s.log|] == s.log &&
         e.log[|s.log|].tid == m.tid && KnownEnv(s, m, e.log[|s.log|].env)))
  }

  lemma HeldReadsEnv(s: System, m: Move, table: nat)
    requires m.tid in s.threads && s.threads[m.tid].pc == Held(table)
    ensures ReadsEnv(s, FromHeld(s, m, table), m)
  {
  }

  lemma FetchedReadsEnv(s: System, m: Move, table: nat, found: Booking)
    requires m.tid in s.threads && s.threads[m.tid].pc == Fetched(table, found) && !s.threads[m.tid].req.Create?
    ensures ReadsEnv(s, FromFetched(s, m, table, found), m)
  {
  }

  lemma ParsedReadsEnv(s: System, m: Move, table: nat, env: Env)
    requires m.tid in s.threads && s.threads[m.tid].pc == Parsed(table, env) && s.threads[m.tid].req.Create?
    ensures ReadsEnv(s, FromParsed(s, m, table, env), m)
  {
  }

  lemma ReadyReadsEnv(s: System, m: Move, table: nat, env: Env, doc: Booking)
    requires m.tid in s.threads && s.threads[m.tid].pc == Ready(table, env, doc)
    ensures ReadsEnv(s, FromReady(s, m, table, env, doc), m)
  {
  }

  lemma StepReadsEnv(s: System, m: Move)
    requires WellTyped(s) && Enabled(s, m)
    ensures ReadsEnv(s, Next(s, m), m)
  {
    match s.threads[m.tid].pc {
      case Start =>
      case Waiting(_) =>
      case Held(table) => HeldReadsEnv(s, m, table);
      case Fetched(table, found) => FetchedReadsEnv(s, m, table, found);
      case Parsed(table, env) => ParsedReadsEnv(s, m, table, env);
      case Ready(table, env, doc) => ReadyReadsEnv(s, m, table, env, doc);
      case Written(_, _) =>
      case Releasing(_, _) =>
    }
  }

  lemma StillRead(past: seq<Move>, m: Move, tid: Tid, env: Env)
    requires WasRead(past, tid, env) || (m.tid == tid && m.env == env)
    ensures WasRead(past + [m], tid, env)
  {
    var after := past + [m];
    if i :| 0 <= i < |past| && past[i].tid == tid && past[i].env == env {
      assert after[i] == past[i];
    } else {
      assert after[|past|] == m;
    }
  }

  lemma StepEnvsWereRead(s: System, m: Move, past: seq<Move>)
    requires WellTyped(s) && Enabled(s, m) && EnvsWereRead(s, past)
    ensures EnvsWereRead(Next(s, m), past + [m])
  {
    StepReadsEnv(s, m);
    var e := Next(s, m);
    forall k | 0 <= k < |e.log|
      ensures WasRead(past + [m], e.log[k].tid, e.log[k].env)
    {
      assert k < |s.log| ==> e.log[k] == s.log[k] && WasRead(past, s.log[k].tid, s.log[k].env);
      StillRead(past, m, e.log[k].tid, e.log[k].env);
    }
    forall tid | tid in e.threads && HasEnv(e.threads[tid].pc)
      ensures WasRead(past + [m], tid, e.threads[tid].pc.env)
    {
      StillRead(past, m, tid, e.threads[tid].pc.env);
    }
  }

  lemma {:induction false} RunEnvsWereRead(s: System, past: seq<Move>, run: seq<Move>)
    requires Consistent(s) && IsRun(s, run) && EnvsWereRead(s, past)
    ensures EnvsWereRead(End(s, run), past + run)
    decreases run
  {
    if run == [] {
      assert past + run == past;
    } else {
      StepIsConsistent(s, run[0]);
      StepEnvsWereRead(s, run[0], past);
      RunEnvsWereRead(Next(s, run[0]), past + [run[0]], run[1..]);
      assert past + [run[0]] + run[1..] == past + run;
    }
  }

  /** Whatever the interleaving: no table is double booked, and the collection is
      the one a sequential run gives.  That run is of the very requests made: it
      runs each request that has been answered exactly once, with the answer that
      was given, under a clock and configuration that one of its own moves read,
      and nothing but decided requests of threads. */
  lemma ConcurrentRequestsAreSequential(s: System, run: seq<Move>)
    requires Fresh(s) && Consistent(s) && IsRun(s, run)
    ensures var e := End(s, run);
            && NoDoubleBooking(e.db)
            && e.db == Replayed(s.db, e.log) && Explains(s.db, e.log)
            && (forall tid :: tid in e.threads && e.threads[tid].pc.Done? ==>
                  exists k :: 0 <= k < |e.log| && LogsThread(e.log, k, tid, e.threads[tid]))
            && (forall i, j :: 0 <= i < j < |e.log| ==> e.log[i].tid != e.log[j].tid)
            && LogIsOfThreads(e) && SameRequests(s, e) && EnvsWereRead(e, run)
  {
    RequestsStay(s, run);
    RunEnvsWereRead(s, [], run);
    assert [] + run == run;
    FreshIsConsistent(s);
    RunIsLinearized(s.db, s, run);
    LinearizedIsSequential(s.db, End(s, run));
  }

  lemma LinearizedIsSequential(db: Database, e: System)
    requires Consistent(e) && Linearized(db, e)
    ensures NoDoubleBooking(e.db) && e.db == Replayed(db, e.log) && Explains(db, e.log)
    ensures forall tid :: tid in e.threads && e.threads[tid].pc.Done? ==>
              exists k :: 0 <= k < |e.log| && LogsThread(e.log, k, tid, e.threads[tid])
    ensures forall i, j :: 0 <= i < j < |e.log| ==> e.log[i].tid != e.log[j].tid
    ensures LogIsOfThreads(e)
  {
  }

  lemma {:induction false} LogGrows(s: System, run: seq<Move>)
    requires Consistent(s) && IsRun(s, run)
    ensures s.log <= End(s, run).log
    decreases run
  {
    if run == [] {
    } else {
      StepIsConsistent(s, run[0]);
      StepDecidesAtomically(s, run[0]);
      LogGrows(Next(s, run[0]), run[1..]);
    }
  }

  /** Real-time order: a request answered before another one has begun comes
      before it in the sequential run. */
  lemma AnsweredBeforeComesFirst(db: Database, s: System, run: seq<Move>, a: Tid, b: Tid)
    requires Consistent(s) && IsRun(s, run) && Linearized(db, s)
    requires a in s.threads && s.threads[a].pc.Done?
    requires b in s.threads && s.threads[b].pc.Start?
    ensures var log := End(s, run).log;
            && IsLogged(log, a)
            && forall i, j :: 0 <= i < |log| && 0 <= j < |log| && log[i].tid == a && log[j].tid == b ==> i < j
  {
    RunIsLinearized(db, s, run);
    LogGrows(s, run);
    AnswerPrecedesStart(s, End(s, run), a, b);
  }

  lemma AnswerPrecedesStart(s: System, e: System, a: Tid, b: Tid)
    requires AnswersAreLogged(s) && AnswersAreLogged(e) && s.log <= e.log
    requires a in s.threads && s.threads[a].pc.Done?
    requires b in s.threads && s.threads[b].pc.Start?
    ensures IsLogged(e.log, a)
    ensures forall i, j ::
              0 <= i < |e.log| && 0 <= j < |e.log| && e.log[i].tid == a && e.log[j].tid == b ==> i < j
  {
    var k :| 0 <= k < |s.log| && LogsThread(s.log, k, a, s.threads[a]);
    PrefixComesFirst(s.log, e.log, a, b);
  }

  lemma PrefixComesFirst(early: seq<Entry>, log: seq<Entry>, a: Tid, b: Tid)
    requires early <= log && IsLogged(early, a) && !IsLogged(early, b)
    requires forall i, j :: 0 <= i < j < |log| ==> log[i].tid != log[j].tid
    ensures IsLogged(log, a)
    ensures forall i, j :: 0 <= i < |log| && 0 <= j < |log| && log[i].tid == a && log[j].tid == b ==> i < j
  {
    var k :| 0 <= k < |early| && early[k].tid == a;
    assert log[k].tid == a;
    assert forall j :: 0 <= j < |early| ==> log[j] == early[j];
  }

  // ----- progress -----

  lemma {:induction false} SomeFreshId(ids: set<Id>) returns (id: Id)
    ensures id !in ids && forall x :: x in ids ==> x < id
    decreases |ids|
  {
    if x :| x in ids {
      var y := SomeFreshId(ids - {x});
      id := if x < y then y else x + 1;
      forall z | z in ids
        ensures z < id
      {
        assert z == x || z in ids - {x};
      }
    } else {
      id := 0;
    }
  }

  /** No deadlock: while some request is unfinished, some request can move. */
  lemma SomeRequestCanMove(s: System, tid: Tid, env: Env) returns (m: Move)
    requires Consistent(s) && tid in s.threads && !s.threads[tid].pc.Done?
    ensures Enabled(s, m)
  {
    var freshId := SomeFreshId(s.db.Keys);
    m := Move(tid, env, freshId);
    if !Enabled(s, m) {
      var th := s.threads[tid];
      var table := if th.pc.Start? then th.req.tableId else th.pc.table;
      m := Move(s.locks[table], env, freshId);
    }
  }

  /** The moves of a run that are not of thread `tid`. */
  function MovesOfOthers(run: seq<Move>, tid: Tid): (r: seq<Move>)
    ensures forall i :: 0 <= i < |r| ==> r[i] in run && r[i].tid != tid
  {
    if run == [] then []
    else (if run[0].tid == tid then [] else [run[0]]) + MovesOfOthers(run[1..], tid)
  }

  function CountMoves(run: seq<Move>, tid: Tid): nat {
    if run == [] then 0 else (if run[0].tid == tid then 1 else 0) + CountMoves(run[1..], tid)
  }

  lemma {:induction false} ThreadMovesAreBounded(s: System, run: seq<Move>, tid: Tid)
    requires Consistent(s) && IsRun(s, run) && tid in s.threads
    ensures CountMoves(run, tid) <= MovesLeft(s.threads[tid].pc)
    decreases run
  {
    if run == [] {
    } else {
      StepIsConsistent(s, run[0]);
      ThreadMovesAreBounded(Next(s, run[0]), run[1..], tid);
    }
  }

  lemma {:induction false} OnlyThreadsMove(s: System, run: seq<Move>)
    requires Consistent(s) && IsRun(s, run)
    ensures forall m :: m in run ==> m.tid in s.threads
    decreases run
  {
    if run == [] {
    } else {
      StepIsConsistent(s, run[0]);
      OnlyThreadsMove(Next(s, run[0]), run[1..]);
    }
  }

  lemma CountOneMore(m: Move, rest: seq<Move>, tid: Tid)
    ensures CountMoves([m] + rest, tid) == CountMoves(rest, tid) + if m.tid == tid then 1 else 0
  {
    assert ([m] + rest)[1..] == rest;
  }

  lemma {:induction false} SplitMoves(run: seq<Move>, tid: Tid, other: Tid)
    ensures |run| == CountMoves(run, tid) + |MovesOfOthers(run, tid)|
    ensures other != tid ==> CountMoves(MovesOfOthers(run, tid), other) == CountMoves(run, other)
  {
    if run == [] {
    } else {
      SplitMoves(run[1..], tid, other);
      var rest := MovesOfOthers(run[1..], tid);
      CountOneMore(run[0], rest, other);
      assert MovesOfOthers(run, tid) == if run[0].tid == tid then rest else [run[0]] + rest;
    }
  }

  lemma {:induction false} AddMoves(run: seq<Move>, tids: set<Tid>)
    requires forall m :: m in run ==> m.tid in tids
    requires forall tid :: tid in tids ==> CountMoves(run, tid) <= MOST_MOVES
    ensures |run| <= MOST_MOVES * |tids|
    decreases |tids|
  {
    if run == [] {
    } else {
      var tid := run[0].tid;
      var rest, others := MovesOfOthers(run, tid), tids - {tid};
      SplitMoves(run, tid, tid);
      forall other | other in others
        ensures CountMoves(rest, other) <= MOST_MOVES
      {
        SplitMoves(run, tid, other);
      }
      AddMoves(rest, others);
      assert |tids| == |others| + 1;
    }
  }

  lemma EachMovesAtMost(s: System, run: seq<Move>)
    requires Consistent(s) && IsRun(s, run)
    ensures forall tid :: tid in s.threads.Keys ==> CountMoves(run, tid) <= MOST_MOVES
  {
    forall tid | tid in s.threads.Keys
      ensures CountMoves(run, tid) <= MOST_MOVES
    {
      ThreadMovesAreBounded(s, run, tid);
    }
  }

  /** Every run is finite: no request makes more than seven moves. */
  lemma RunsAreBounded(s: System, run: seq<Move>)
    requires Consistent(s) && IsRun(s, run)
    ensures |run| <= MOST_MOVES * |s.threads.Keys|
  {
    OnlyThreadsMove(s, run);
    EachMovesAtMost(s, run);
    AddMoves(run, s.threads.Keys);
  }

  /** So every run that cannot go on has answered every request. */
  lemma StuckMeansAnswered(s: System, run: seq<Move>, tid: Tid)
    requires Consistent(s) && IsRun(s, run) && tid in s.threads
    requires forall m :: !Enabled(End(s, run), m)
    ensures tid in End(s, run).threads && End(s, run).threads[tid].pc.Done?
  {
    RequestsStay(s, run);
    var e := End(s, run);
    if !e.threads[tid].pc.Done? {
      var m := SomeRequestCanMove(e, tid, Env(0, VenueConfig(NoColon, NoColon, 0)));
    }
  }
}
