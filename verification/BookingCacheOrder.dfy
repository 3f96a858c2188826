/** Concurrent requests and the table cache: updating it late but under the table's
    mutex, with a clock of its own, is the same as updating it along with the
    database in the sequential run. */
module BookingCacheOrder {
  import opened Domain
  import VC = VenueCache
  import opened BookingRepository
  import opened BookingService
  import opened BookingConcurrency
  import opened BookingLinearizability
  import opened TimeUtil

  function SyncTime(times: map<Tid, int>, tid: Tid): int {
    if tid in times then times[tid] else 0
  }

  /** The cache after the logged requests, each updating it at its own time. */
  function CacheReplayed(m: VC.Tables, log: seq<Entry>, times: map<Tid, int>): VC.Tables {
    if log == [] then m
    else
      var e := log[|log| - 1];
      CacheAfter(CacheReplayed(m, log[..|log| - 1], times), e.req, e.outcome, SyncTime(times, e.tid))
  }

  /** Two caches have the same table `t`. */
  predicate SameAt(a: VC.Tables, b: VC.Tables, t: int) {
    (t in a <==> t in b) && (t in a ==> a[t] == b[t])
  }

  predicate Concerns(outcome: Outcome, t: int) {
    outcome.Saved? && outcome.doc.tableId == t
  }

  lemma CacheAfterIsPerTable(a: VC.Tables, b: VC.Tables, req: Request, outcome: Outcome, now: int, t: int)
    requires SameAt(a, b, t)
    ensures SameAt(CacheAfter(a, req, outcome, now), CacheAfter(b, req, outcome, now), t)
  {
  }

  lemma OtherTablesKept(a: VC.Tables, req: Request, outcome: Outcome, now: int, t: int)
    requires !Concerns(outcome, t)
    ensures SameAt(CacheAfter(a, req, outcome, now), a, t)
  {
  }

  lemma SyncOneMore(m: VC.Tables, log: seq<Entry>, e: Entry, times: map<Tid, int>)
    ensures CacheReplayed(m, log + [e], times) ==
            CacheAfter(CacheReplayed(m, log, times), e.req, e.outcome, SyncTime(times, e.tid))
  {
    assert (log + [e])[..|log|] == log;
  }

  /** The time of a thread that has not written on `t` is of no account there. */
  lemma {:induction false} TimeElsewhere(m: VC.Tables, log: seq<Entry>, times: map<Tid, int>,
                                         tid: Tid, now: int, t: int)
    requires forall k :: 0 <= k < |log| && log[k].tid == tid ==> !Concerns(log[k].outcome, t)
    ensures SameAt(CacheReplayed(m, log, times[tid := now]), CacheReplayed(m, log, times), t)
  {
    if log == [] {
    } else {
      var before, e := log[..|log| - 1], log[|log| - 1];
      TimeElsewhere(m, before, times, tid, now, t);
      var a, b := CacheReplayed(m, before, times[tid := now]), CacheReplayed(m, before, times);
      if e.tid == tid {
        OtherTablesKept(a, e.req, e.outcome, now, t);
        OtherTablesKept(b, e.req, e.outcome, SyncTime(times, tid), t);
      } else {
        CacheAfterIsPerTable(a, b, e.req, e.outcome, SyncTime(times, e.tid), t);
      }
    }
  }

  // ----- the invariant -----

  /** Thread `tid` has written a document of `t` and not yet updated the cache. */
  predicate Syncing(s: System, tid: Tid, t: int) {
    tid in s.threads && s.threads[tid].pc.Written? && s.threads[tid].pc.table == t
  }

  /** Updating the cache now would bring table `t` to the sequential run's. */
  predicate SyncCompletes(m: VC.Tables, s: System, tid: Tid, now: int, t: int)
    requires Syncing(s, tid, t)
  {
    SameAt(CacheAfter(s.tables, s.threads[tid].req, s.threads[tid].pc.outcome, now),
           CacheReplayed(m, s.log, s.syncTimes[tid := now]), t)
  }

  ghost predicate InStep(m: VC.Tables, s: System, t: int) {
    && (forall tid, now :: Syncing(s, tid, t) ==> SyncCompletes(m, s, tid, now, t))
    && ((forall tid :: !Syncing(s, tid, t)) ==> SameAt(s.tables, CacheReplayed(m, s.log, s.syncTimes), t))
  }

  /** Every finished update has its time on record. */
  ghost predicate Stamped(s: System) {
    forall tid :: tid in s.threads && (s.threads[tid].pc.Releasing? || s.threads[tid].pc.Done?) ==>
      (s.threads[tid].pc.outcome.Saved? ==> tid in s.syncTimes)
  }

  /** The mutex lets one thread at a time write on a table. */
  lemma OneSyncing(s: System, a: Tid, b: Tid, t: int)
    requires Consistent(s) && Syncing(s, a, t)
    requires b in s.threads && InCriticalSection(s.threads[b].pc) && s.threads[b].pc.table == t
    ensures a == b
  {
  }

  lemma ReplayWithTime(m: VC.Tables, tables: VC.Tables, log: seq<Entry>, times: map<Tid, int>,
                       entry: Entry, now: int, t: int)
    requires SameAt(tables, CacheReplayed(m, log, times), t) && !IsLogged(log, entry.tid)
    ensures SameAt(CacheAfter(tables, entry.req, entry.outcome, now),
                   CacheReplayed(m, log + [entry], times[entry.tid := now]), t)
  {
    var later := times[entry.tid := now];
    SyncOneMore(m, log, entry, later);
    TimeElsewhere(m, log, times, entry.tid, now, t);
    CacheAfterIsPerTable(tables, CacheReplayed(m, log, later), entry.req, entry.outcome, now, t);
  }

  /** The write itself: on its own table the update is now due. */
  lemma WriteIsInStep(m: VC.Tables, s: System, mv: Move, table: nat, env: Env, doc: Booking)
    requires mv.tid in s.threads && s.threads[mv.tid].pc == Ready(table, env, doc)
    requires !IsLogged(s.log, mv.tid) && InStep(m, s, table) && forall tid :: !Syncing(s, tid, table)
    ensures InStep(m, FromReady(s, mv, table, env, doc), table)
  {
    var e := FromReady(s, mv, table, env, doc);
    var entry := e.log[|s.log|];
    forall tid | Syncing(e, tid, table)
      ensures tid == mv.tid
    {
      assert tid != mv.tid ==> !Syncing(s, tid, table);
    }
    forall now
      ensures SyncCompletes(m, e, mv.tid, now, table)
    {
      ReplayWithTime(m, s.tables, s.log, s.syncTimes, entry, now, table);
    }
    assert Syncing(e, mv.tid, table);
  }

  /** Nobody else is about to update the cache for the table of a write. */
  lemma NobodyIsSyncing(s: System, tid: Tid)
    requires Consistent(s) && AnswersAreLogged(s) && tid in s.threads && s.threads[tid].pc.Ready?
    ensures forall other :: !Syncing(s, other, s.threads[tid].pc.table)
    ensures !IsLogged(s.log, tid)
  {
    forall other
      ensures !Syncing(s, other, s.threads[tid].pc.table)
    {
      if Syncing(s, other, s.threads[tid].pc.table) {
        OneSyncing(s, other, tid, s.threads[tid].pc.table);
      }
    }
  }

  /** Logging an answer that does not concern `t`, with the cache as it was. */
  lemma LoggingElsewhere(m: VC.Tables, s: System, e: System, tid: Tid, entry: Entry, t: int)
    requires InStep(m, s, t) && OnlyMoves(s, e, tid)
    requires !Syncing(s, tid, t) && !Syncing(e, tid, t) && !Concerns(entry.outcome, t)
    requires e.log in {s.log, s.log + [entry]} && e.tables == s.tables && e.syncTimes == s.syncTimes
    ensures InStep(m, e, t)
  {
    forall times
      ensures SameAt(CacheReplayed(m, e.log, times), CacheReplayed(m, s.log, times), t)
    {
      SyncOneMore(m, s.log, entry, times);
      OtherTablesKept(CacheReplayed(m, s.log, times), entry.req, entry.outcome, SyncTime(times, entry.tid), t);
    }
    forall other, now | Syncing(e, other, t)
      ensures SyncCompletes(m, e, other, now, t)
    {
      assert Syncing(s, other, t) && SyncCompletes(m, s, other, now, t);
    }
    forall other
      ensures Syncing(s, other, t) <==> Syncing(e, other, t)
    {
    }
  }

  /** The cache update of a thread on table `t`. */
  lemma SyncIsInStep(m: VC.Tables, s: System, mv: Move)
    requires Consistent(s) && Enabled(s, mv) && s.threads[mv.tid].pc.Written?
    requires InStep(m, s, s.threads[mv.tid].pc.table)
    ensures InStep(m, Next(s, mv), s.threads[mv.tid].pc.table)
  {
    var t, e := s.threads[mv.tid].pc.table, Next(s, mv);
    assert SyncCompletes(m, s, mv.tid, mv.env.now, t);
    forall tid
      ensures !Syncing(e, tid, t)
    {
      if tid != mv.tid && Syncing(s, tid, t) {
        OneSyncing(s, tid, mv.tid, t);
      }
    }
  }

  /** The only entry of a thread about to update table `t` concerns `t`. */
  lemma WrittenElsewhere(s: System, tid: Tid, t: int)
    requires AnswersAreLogged(s) && tid in s.threads && s.threads[tid].pc.Written?
    requires !Concerns(s.threads[tid].pc.outcome, t)
    ensures forall k :: 0 <= k < |s.log| && s.log[k].tid == tid ==> !Concerns(s.log[k].outcome, t)
  {
    var at :| 0 <= at < |s.log| && LogsThread(s.log, at, tid, s.threads[tid]);
    forall k | 0 <= k < |s.log| && s.log[k].tid == tid
      ensures k == at
    {
    }
  }

  lemma SyncStillCompletes(m: VC.Tables, s: System, e: System, tid: Tid, now: int, other: Tid, later: int, t: int)
    requires e.log == s.log && e.syncTimes == s.syncTimes[tid := now] && SameAt(e.tables, s.tables, t)
    requires forall k :: 0 <= k < |s.log| && s.log[k].tid == tid ==> !Concerns(s.log[k].outcome, t)
    requires other != tid && Syncing(s, other, t) && SyncCompletes(m, s, other, later, t)
    requires other in e.threads && e.threads[other] == s.threads[other]
    ensures SyncCompletes(m, e, other, later, t)
  {
    CacheAfterIsPerTable(e.tables, s.tables, s.threads[other].req, s.threads[other].pc.outcome, later, t);
    TimeElsewhere(m, s.log, s.syncTimes[other := later], tid, now, t);
    assert s.syncTimes[other := later][tid := now] == e.syncTimes[other := later];
  }

  /** The cache update of a thread on another table. */
  lemma SyncElsewhere(m: VC.Tables, s: System, mv: Move, table: nat, outcome: Outcome, t: int)
    requires mv.tid in s.threads && s.threads[mv.tid].pc == Written(table, outcome) && table != t
    requires !Concerns(outcome, t) && AnswersAreLogged(s) && InStep(m, s, t)
    ensures InStep(m, FromWritten(s, mv, table, outcome), t)
  {
    var e, tid, now := FromWritten(s, mv, table, outcome), mv.tid, mv.env.now;
    WrittenElsewhere(s, tid, t);
    OtherTablesKept(s.tables, s.threads[tid].req, outcome, now, t);
    TimeElsewhere(m, s.log, s.syncTimes, tid, now, t);
    forall other
      ensures Syncing(s, other, t) <==> Syncing(e, other, t)
    {
    }
    forall other, later | Syncing(e, other, t)
      ensures SyncCompletes(m, e, other, later, t)
    {
      assert Syncing(s, other, t) && SyncCompletes(m, s, other, later, t);
      SyncStillCompletes(m, s, e, tid, now, other, later, t);
    }
  }

  /** A step that is no write and no cache update. */
  lemma QuietStepIsInStep(m: VC.Tables, s: System, e: System, tid: Tid, t: int)
    requires OnlyMoves(s, e, tid) && WritesNothing(s, e, tid) && !s.threads[tid].pc.Written?
    requires InStep(m, s, t)
    ensures InStep(m, e, t)
  {
    var nothing := Entry(tid, s.threads[tid].req, Env(0, VenueConfig(NoColon, NoColon, 0)), 0, Rejected(0));
    LoggingElsewhere(m, s, e, tid, if e.log == s.log then nothing else e.log[|s.log|], t);
  }

  lemma WriteElsewhere(m: VC.Tables, s: System, mv: Move, t: int)
    requires Consistent(s) && Enabled(s, mv) && InStep(m, s, t)
    requires s.threads[mv.tid].pc.Ready? && s.threads[mv.tid].pc.table != t
    ensures InStep(m, Next(s, mv), t)
  {
    var e, th := Next(s, mv), s.threads[mv.tid];
    assert Locally(s.db, th);
    DecisionStaysOnTable(s.db, th.req, th.pc.env, th.pc.table);
    LoggingElsewhere(m, s, e, mv.tid, e.log[|s.log|], t);
  }

  lemma StepIsInStep(m: VC.Tables, s: System, mv: Move, t: int)
    requires Consistent(s) && Enabled(s, mv) && AnswersAreLogged(s) && InStep(m, s, t)
    ensures InStep(m, Next(s, mv), t)
  {
    var pc := s.threads[mv.tid].pc;
    assert Locally(s.db, s.threads[mv.tid]);
    if pc.Written? && pc.table == t {
      SyncIsInStep(m, s, mv);
    } else if pc.Written? {
      SyncElsewhere(m, s, mv, pc.table, pc.outcome, t);
    } else if pc.Ready? && pc.table == t {
      NobodyIsSyncing(s, mv.tid);
      WriteIsInStep(m, s, mv, pc.table, pc.env, pc.doc);
    } else if pc.Ready? {
      WriteElsewhere(m, s, mv, t);
    } else {
      QuietStepIsInStep(m, s, Next(s, mv), mv.tid, t);
    }
  }

  lemma StepIsStamped(s: System, mv: Move)
    requires Consistent(s) && Enabled(s, mv) && Stamped(s)
    ensures Stamped(Next(s, mv))
  {
  }

  lemma {:induction false} RunIsInStep(db: Database, m: VC.Tables, s: System, run: seq<Move>, t: int)
    requires Consistent(s) && IsRun(s, run) && Linearized(db, s) && InStep(m, s, t) && Stamped(s)
    ensures InStep(m, End(s, run), t) && Stamped(End(s, run))
    decreases run
  {
    if run == [] {
    } else {
      StepIsConsistent(s, run[0]);
      StepIsLinearized(db, s, run[0]);
      StepIsInStep(m, s, run[0], t);
      StepIsStamped(s, run[0]);
      RunIsInStep(db, m, Next(s, run[0]), run[1..], t);
    }
  }

  /** Whatever the interleaving, wherever no update of table `t` is outstanding
      the cache shows of it what the sequential run shows that updates the cache
      along with the database, each request at the instant its update read. */
  lemma CacheFollowsSequentialRun(s: System, run: seq<Move>, t: int)
    requires Fresh(s) && Consistent(s) && IsRun(s, run)
    requires forall tid :: !Syncing(End(s, run), tid, t)
    ensures var e := End(s, run);
            && SameAt(e.tables, CacheReplayed(s.tables, e.log, e.syncTimes), t)
            && AnswersAreLogged(e) && LogIsOfThreads(e)
            && forall tid :: tid in e.threads && e.threads[tid].pc.Done? && e.threads[tid].pc.outcome.Saved? ==>
                 tid in e.syncTimes
  {
    FreshIsConsistent(s);
    RunIsLinearized(s.db, s, run);
    RunIsInStep(s.db, s.tables, s, run, t);
  }
}
