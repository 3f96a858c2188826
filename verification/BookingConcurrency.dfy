/** Booking requests running concurrently.  Each request is a little program
    whose database accesses, lock operations and cache update are separate
    steps; a step of any thread may follow a step of any other. */
module BookingConcurrency {
  import opened Domain
  import VC = VenueCache
  import opened BookingRepository
  import opened BookingService

  type Tid = nat

  /** Where a request is, with the local variables it needs from there on. */
  datatype Pc =
    | Start
    | Waiting(table: nat)                      // pre-fetched: which mutex to take
    | Held(table: nat)                         // mutex taken
    | Fetched(table: nat, found: Booking)      // re-read under the mutex
    | Parsed(table: nat, env: Env)             // create: fields in order
    | Ready(table: nat, env: Env, doc: Booking) // checked: about to write
    | Written(table: nat, outcome: Outcome)    // about to update the cache
    | Releasing(table: nat, outcome: Outcome)  // about to unlock
    | Done(outcome: Outcome)

  datatype Thread = Thread(req: Request, pc: Pc)

  /** One decided request: what it was, what it read, and what it answered. */
  datatype Entry = Entry(tid: Tid, req: Request, env: Env, freshId: Id, outcome: Outcome)

  datatype System = System(
    db: Database,
    tables: VC.Tables,
    locks: map<nat, Tid>,
    threads: map<Tid, Thread>,
    log: seq<Entry>,            // history variable, in the order of decision
    syncTimes: map<Tid, int>)   // history variable: the clock each cache update read

  /** The thread that moves, the environment it reads, and the id an insert gets. */
  datatype Move = Move(tid: Tid, env: Env, freshId: Id)

  predicate Enabled(s: System, m: Move) {
    && m.tid in s.threads
    && m.freshId !in s.db
    && match s.threads[m.tid].pc
       case Start => s.threads[m.tid].req.Create? ==> s.threads[m.tid].req.tableId !in s.locks
       case Waiting(table) => table !in s.locks
       case Done(_) => false
       case _ => true
  }

  /** Only thread `tid` has moved, and its request is the same. */
  predicate OnlyMoves(s: System, e: System, tid: Tid) {
    && tid in s.threads && tid in e.threads
    && e.threads == s.threads[tid := e.threads[tid]]
    && e.threads[tid].req == s.threads[tid].req
  }

  /** How many moves a request has left at most. */
  function MovesLeft(pc: Pc): nat {
    match pc
    case Start => MOST_MOVES
    case Waiting(_) => 6
    case Held(_) => 5
    case Fetched(_, _) => 4
    case Parsed(_, _) => 4
    case Ready(_, _, _) => 3
    case Written(_, _) => 2
    case Releasing(_, _) => 1
    case Done(_) => 0
  }

  const MOST_MOVES := 7

  /** Thread `tid` alone has moved, nearer to its answer. */
  predicate Advances(s: System, e: System, tid: Tid) {
    OnlyMoves(s, e, tid) && MovesLeft(e.threads[tid].pc) < MovesLeft(s.threads[tid].pc)
  }

  /** Cache and collection are as they were, and at most a refusal is logged. */
  predicate WritesNothing(s: System, e: System, tid: Tid)
    requires tid in e.threads
  {
    && e.db == s.db && e.tables == s.tables && e.syncTimes == s.syncTimes
    && !e.threads[tid].pc.Written?
    && (e.log == s.log ||
        (|e.log| == |s.log| + 1 && e.log == s.log + [e.log[|s.log|]] && e.log[|s.log|].outcome.Rejected?))
  }

  function Goto(s: System, tid: Tid, pc: Pc): (e: System)
    requires tid in s.threads
    ensures OnlyMoves(s, e, tid) && e.threads[tid].pc == pc
    ensures !pc.Written? ==> WritesNothing(s, e, tid)
  {
    s.(threads := s.threads[tid := s.threads[tid].(pc := pc)])
  }

  /** The request is decided here: it is logged with its answer. */
  function Logged(s: System, m: Move, env: Env, outcome: Outcome): System
    requires m.tid in s.threads
  {
    s.(log := s.log + [Entry(m.tid, s.threads[m.tid].req, env, m.freshId, outcome)])
  }

  function Refuse(s: System, m: Move, table: nat, env: Env, code: int): (e: System)
    requires m.tid in s.threads
    ensures OnlyMoves(s, e, m.tid) && e.threads[m.tid].pc == Releasing(table, Rejected(code))
    ensures WritesNothing(s, e, m.tid)
  {
    Logged(Goto(s, m.tid, Releasing(table, Rejected(code))), m, env, Rejected(code))
  }

  predicate Gone(db: Database, id: Id) {
    id !in db || db[id].status == Cancelled
  }

  function FromStart(s: System, m: Move): (e: System)
    requires m.tid in s.threads && s.threads[m.tid].pc.Start?
    ensures Advances(s, e, m.tid) && WritesNothing(s, e, m.tid)
  {
    var req := s.threads[m.tid].req;
    if req.Create? then
      Goto(s, m.tid, Held(req.tableId)).(locks := s.locks[req.tableId := m.tid])
    else if Gone(s.db, req.id) then
      Logged(Goto(s, m.tid, Done(Rejected(404))), m, m.env, Rejected(404))
    else
      Goto(s, m.tid, Waiting(s.db[req.id].tableId))
  }

  function FromHeld(s: System, m: Move, table: nat): (e: System)
    requires m.tid in s.threads && s.threads[m.tid].pc == Held(table)
    ensures Advances(s, e, m.tid) && WritesNothing(s, e, m.tid)
  {
    var req := s.threads[m.tid].req;
    if req.Create? then
      match Drafted(req, m.env)
      case Reject(code) => Refuse(s, m, table, m.env, code)
      case Put(_) => Goto(s, m.tid, Parsed(table, m.env))
    else if Gone(s.db, req.id) then Refuse(s, m, table, m.env, 404)
    else Goto(s, m.tid, Fetched(table, s.db[req.id]))
  }

  function FromFetched(s: System, m: Move, table: nat, found: Booking): (e: System)
    requires m.tid in s.threads && s.threads[m.tid].pc == Fetched(table, found) && !s.threads[m.tid].req.Create?
    ensures Advances(s, e, m.tid) && WritesNothing(s, e, m.tid)
  {
    var req := s.threads[m.tid].req;
    if req.Cancel? then Goto(s, m.tid, Ready(table, m.env, found.(status := Cancelled)))
    else
      match Patched(found, req)
      case Reject(code) => Refuse(s, m, table, m.env, code)
      case Put(doc) =>
        if ChangesTimes(req) && HasOverlap(s.db, found.tableId, doc.checkIn, doc.checkOut, Some(req.id))
        then Refuse(s, m, table, m.env, 409)
        else Goto(s, m.tid, Ready(table, m.env, doc))
  }

  function FromParsed(s: System, m: Move, table: nat, env: Env): (e: System)
    requires m.tid in s.threads && s.threads[m.tid].pc == Parsed(table, env) && s.threads[m.tid].req.Create?
    ensures Advances(s, e, m.tid) && WritesNothing(s, e, m.tid)
  {
    match Drafted(s.threads[m.tid].req, env)
    case Reject(code) => Refuse(s, m, table, env, code)
    case Put(doc) =>
      if HasOverlap(s.db, doc.tableId, doc.checkIn, doc.checkOut, None)
      then Refuse(s, m, table, env, 409)
      else Goto(s, m.tid, Ready(table, env, doc))
  }

  /** The single write: an insert under a fresh id, or a whole-document replace
      that leaves an absent id absent. */
  function FromReady(s: System, m: Move, table: nat, env: Env, doc: Booking): (e: System)
    requires m.tid in s.threads && s.threads[m.tid].pc == Ready(table, env, doc)
    ensures Advances(s, e, m.tid)
  {
    var req := s.threads[m.tid].req;
    var id := Target(req, m.freshId);
    var db := if req.Create? || id in s.db then s.db[id := doc] else s.db;
    Logged(Goto(s, m.tid, Written(table, Saved(id, doc))), m, env, Saved(id, doc)).(db := db)
  }

  predicate WellTyped(s: System) {
    forall tid :: tid in s.threads ==>
      && (s.threads[tid].pc.Fetched? || s.threads[tid].pc.Waiting? ==> !s.threads[tid].req.Create?)
      && (s.threads[tid].pc.Parsed? ==> s.threads[tid].req.Create?)
  }

  /** The cache update, which reads the clock anew. */
  function FromWritten(s: System, m: Move, table: nat, outcome: Outcome): (e: System)
    requires m.tid in s.threads && s.threads[m.tid].pc == Written(table, outcome)
    ensures Advances(s, e, m.tid)
  {
    Goto(s, m.tid, Releasing(table, outcome)).(
      tables := CacheAfter(s.tables, s.threads[m.tid].req, outcome, m.env.now),
      syncTimes := s.syncTimes[m.tid := m.env.now])
  }

  function Next(s: System, m: Move): (e: System)
    requires WellTyped(s) && Enabled(s, m)
    ensures Advances(s, e, m.tid)
    ensures !s.threads[m.tid].pc.Ready? && !s.threads[m.tid].pc.Written? ==> WritesNothing(s, e, m.tid)
  {
    match s.threads[m.tid].pc
    case Start => FromStart(s, m)
    case Waiting(table) => Goto(s, m.tid, Held(table)).(locks := s.locks[table := m.tid])
    case Held(table) => FromHeld(s, m, table)
    case Fetched(table, found) => FromFetched(s, m, table, found)
    case Parsed(table, env) => FromParsed(s, m, table, env)
    case Ready(table, env, doc) => FromReady(s, m, table, env, doc)
    case Written(table, outcome) => FromWritten(s, m, table, outcome)
    case Releasing(table, outcome) => Goto(s, m.tid, Done(outcome)).(locks := s.locks - {table})
  }

  // ----- what every reachable state satisfies -----

  predicate InCriticalSection(pc: Pc) {
    pc.Held? || pc.Fetched? || pc.Parsed? || pc.Ready? || pc.Written? || pc.Releasing?
  }

  /** The id exists and belongs to the table whose mutex the request takes. */
  predicate OnTable(db: Database, req: Request, table: nat) {
    if req.Create? then req.tableId == table else req.id in db && db[req.id].tableId == table
  }

  /** What one thread may rely on. */
  predicate Locally(db: Database, th: Thread) {
    match th.pc
    case Start => true
    case Done(_) => true
    case Waiting(table) => !th.req.Create? && OnTable(db, th.req, table)
    case Held(table) => OnTable(db, th.req, table)
    case Fetched(table, found) =>
      !th.req.Create? && OnTable(db, th.req, table) && db[th.req.id] == found && found.status != Cancelled
    case Parsed(table, env) => th.req.Create? && OnTable(db, th.req, table) && Drafted(th.req, env).Put?
    case Ready(table, env, doc) => OnTable(db, th.req, table) && Decide(db, th.req, env) == Put(doc)
    case Written(table, outcome) => outcome.Saved? && outcome.doc.tableId == table
    case Releasing(table, _) => true
  }

  ghost predicate Consistent(s: System) {
    && WellTyped(s)
    && NoDoubleBooking(s.db)
    && (forall tid :: tid in s.threads && InCriticalSection(s.threads[tid].pc) ==>
          s.threads[tid].pc.table in s.locks && s.locks[s.threads[tid].pc.table] == tid)
    && (forall table :: table in s.locks ==>
          && s.locks[table] in s.threads
          && InCriticalSection(s.threads[s.locks[table]].pc)
          && s.threads[s.locks[table]].pc.table == table)
    && (forall tid :: tid in s.threads ==> Locally(s.db, s.threads[tid]))
  }

  /** Two collections hold the same documents of one table. */
  ghost predicate SameOnTable(a: Database, b: Database, table: nat) {
    && (forall id :: id in a && a[id].tableId == table ==> id in b && b[id] == a[id])
    && (forall id :: id in b && b[id].tableId == table ==> id in a && a[id] == b[id])
  }

  /** A request decides by the documents of its own table only. */
  lemma DecisionIsPerTable(a: Database, b: Database, req: Request, env: Env, table: nat)
    requires SameOnTable(a, b, table) && OnTable(a, req, table)
    ensures OnTable(b, req, table) && Decide(a, req, env) == Decide(b, req, env)
  {
  }

  lemma LocallyIsPerTable(a: Database, b: Database, th: Thread)
    requires Locally(a, th)
    requires InCriticalSection(th.pc) ==> SameOnTable(a, b, th.pc.table)
    requires forall id :: id in a ==> id in b && b[id].tableId == a[id].tableId
    ensures Locally(b, th)
  {
  }

  /** The document a request writes stays on the request's table. */
  lemma DecisionStaysOnTable(db: Database, req: Request, env: Env, table: nat)
    requires OnTable(db, req, table) && Decide(db, req, env).Put?
    ensures Decide(db, req, env).doc.tableId == table
  {
  }

  /** The write of a thread is the atomic effect of its whole request. */
  lemma WriteIsAtomicEffect(s: System, m: Move, table: nat, env: Env, doc: Booking)
    requires m.tid in s.threads && s.threads[m.tid].pc == Ready(table, env, doc)
    requires Locally(s.db, s.threads[m.tid])
    ensures var req := s.threads[m.tid].req;
            (FromReady(s, m, table, env, doc).db, Saved(Target(req, m.freshId), doc)) ==
            Apply(s.db, req, env, m.freshId)
  {
  }

  /** A write leaves every thread on another table what it relies on. */
  lemma WriteKeepsOthers(db: Database, th: Thread, other: Thread, freshId: Id)
    requires th.pc.Ready? && Locally(db, th) && Locally(db, other) && freshId !in db
    requires InCriticalSection(other.pc) ==> other.pc.table != th.pc.table
    ensures Locally(Apply(db, th.req, th.pc.env, freshId).0, other)
  {
    DecisionStaysOnTable(db, th.req, th.pc.env, th.pc.table);
    LocallyIsPerTable(db, Apply(db, th.req, th.pc.env, freshId).0, other);
  }

  lemma WriteIsConsistent(s: System, m: Move)
    requires Consistent(s) && Enabled(s, m) && s.threads[m.tid].pc.Ready?
    ensures Consistent(Next(s, m))
  {
    var e := Next(s, m);
    var th := s.threads[m.tid];
    assert Locally(s.db, th);
    WriteIsAtomicEffect(s, m, th.pc.table, th.pc.env, th.pc.doc);
    DecisionKeepsNoDoubleBooking(s.db, th.req, th.pc.env, m.freshId);
    DecisionStaysOnTable(s.db, th.req, th.pc.env, th.pc.table);
    forall tid | tid in e.threads
      ensures Locally(e.db, e.threads[tid])
    {
      if tid != m.tid {
        WriteKeepsOthers(s.db, th, s.threads[tid], m.freshId);
      }
    }
  }

  /** A thread that moves without touching database or locks. */
  ghost predicate MovesLocally(s: System, e: System, tid: Tid)
    requires OnlyMoves(s, e, tid)
  {
    var th, pc := s.threads[tid], e.threads[tid].pc;
    && e.db == s.db && e.locks == s.locks
    && (pc.Fetched? || pc.Waiting? ==> !th.req.Create?)
    && (pc.Parsed? ==> th.req.Create?)
    && Locally(e.db, e.threads[tid])
    && (InCriticalSection(pc) <==> InCriticalSection(th.pc))
    && (InCriticalSection(pc) ==> pc.table == th.pc.table)
  }

  lemma LocalMoveIsConsistent(s: System, e: System, tid: Tid)
    requires Consistent(s) && OnlyMoves(s, e, tid) && MovesLocally(s, e, tid)
    ensures Consistent(e)
  {
  }

  lemma LockIsConsistent(s: System, tid: Tid, table: nat)
    requires Consistent(s) && tid in s.threads && table !in s.locks
    requires !InCriticalSection(s.threads[tid].pc) && OnTable(s.db, s.threads[tid].req, table)
    ensures Consistent(Goto(s, tid, Held(table)).(locks := s.locks[table := tid]))
  {
  }

  lemma UnlockIsConsistent(s: System, tid: Tid)
    requires Consistent(s) && tid in s.threads && s.threads[tid].pc.Releasing?
    ensures Consistent(Goto(s, tid, Done(s.threads[tid].pc.outcome)).(locks := s.locks - {s.threads[tid].pc.table}))
  {
  }

  lemma StartMovesLocally(s: System, m: Move)
    requires m.tid in s.threads && s.threads[m.tid].pc.Start? && !s.threads[m.tid].req.Create?
    ensures MovesLocally(s, FromStart(s, m), m.tid)
  {
  }

  lemma HeldMovesLocally(s: System, m: Move, table: nat)
    requires m.tid in s.threads && s.threads[m.tid].pc == Held(table) && Locally(s.db, s.threads[m.tid])
    ensures MovesLocally(s, FromHeld(s, m, table), m.tid)
  {
  }

  lemma FetchedMovesLocally(s: System, m: Move, table: nat, found: Booking)
    requires m.tid in s.threads && s.threads[m.tid].pc == Fetched(table, found) && Locally(s.db, s.threads[m.tid])
    ensures MovesLocally(s, FromFetched(s, m, table, found), m.tid)
  {
  }

  lemma ParsedMovesLocally(s: System, m: Move, table: nat, env: Env)
    requires m.tid in s.threads && s.threads[m.tid].pc == Parsed(table, env) && Locally(s.db, s.threads[m.tid])
    ensures MovesLocally(s, FromParsed(s, m, table, env), m.tid)
  {
  }

  lemma WrittenMovesLocally(s: System, m: Move, table: nat, outcome: Outcome)
    requires m.tid in s.threads && s.threads[m.tid].pc == Written(table, outcome)
    ensures MovesLocally(s, FromWritten(s, m, table, outcome), m.tid)
  {
  }

  lemma InnerStepMovesLocally(s: System, m: Move)
    requires WellTyped(s) && Enabled(s, m) && Locally(s.db, s.threads[m.tid])
    requires var th := s.threads[m.tid];
             || (th.pc.Start? && !th.req.Create?)
             || th.pc.Held? || th.pc.Fetched? || th.pc.Parsed? || th.pc.Written?
    ensures MovesLocally(s, Next(s, m), m.tid)
  {
    match s.threads[m.tid].pc {
      case Start => StartMovesLocally(s, m);
      case Held(table) => HeldMovesLocally(s, m, table);
      case Fetched(table, found) => FetchedMovesLocally(s, m, table, found);
      case Parsed(table, env) => ParsedMovesLocally(s, m, table, env);
      case Written(table, outcome) => WrittenMovesLocally(s, m, table, outcome);
    }
  }

  lemma StepIsConsistent(s: System, m: Move)
    requires Consistent(s) && Enabled(s, m)
    ensures Consistent(Next(s, m))
  {
    var th := s.threads[m.tid];
    assert Locally(s.db, th);
    if th.pc.Ready? {
      WriteIsConsistent(s, m);
    } else if th.pc.Waiting? {
      LockIsConsistent(s, m.tid, th.pc.table);
    } else if th.pc.Start? && th.req.Create? {
      LockIsConsistent(s, m.tid, th.req.tableId);
    } else if th.pc.Releasing? {
      UnlockIsConsistent(s, m.tid);
    } else {
      InnerStepMovesLocally(s, m);
      LocalMoveIsConsistent(s, Next(s, m), m.tid);
    }
  }
}
