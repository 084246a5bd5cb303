/** Any number of requests sharing ten engines, as a system of interleaved steps: every operation on the
    semaphore, the pool mutex or a read-write lock is a step, and so is every comparison of a scan. */
module EngineProtocol {
  import opened Options
  import opened Histories
  import opened EngineSpec

  const ENGINES: nat := 10

  datatype Pc =
    | Start                          // popEngineIndex: about to acquire the semaphore
    | Acquired                       // about to lock the pool mutex
    | PopLocked                      // about to take the top of the stack
    | Popped(e: int)                 // about to unlock the pool mutex
    | Ready(e: int)                  // about to load the image
    | WantUsers(e: int)              // getCache: about to lock the user list for reading
    | UserScan(e: int, i: nat)       // at position i of the user list
    | UserDone(e: int, hit: bool)    // freeUserLock
    | WantGuests(e: int)             // getCache_guest: about to lock the guest list for reading
    | GuestScan(e: int, i: nat)      // at position i of the guest list
    | GuestDone(e: int, ret: int)    // freeGuestLock
    | WantWrite(e: int)              // addFeature_Guest: about to lock the guest list for writing
    | Appending(e: int)              // about to push the guest
    | Appended(e: int)               // about to unlock the guest list
    | Giving(e: int, ret: int)       // pushEngineIndex: about to lock the pool mutex
    | GiveLocked(e: int, ret: int)   // about to push the index
    | Given(ret: int)                // about to unlock the pool mutex
    | Releasing(ret: int)            // about to release the semaphore
    | Storing                        // addFeature_User, after the engine was given back
    | Done(ret: int)
    | Crashed                        // top() of an empty stack

  /** `snap` remembers the guest list as it stood when the thread got its read lock. */
  datatype Thread = Thread(req: Request, pc: Pc, snap: seq<Entry>)

  /** The top of the stack is the end of `pool`. `hist` lists the requests in the order in which they
      took effect. */
  datatype State = State(
    sem: nat, mutex: Option<Tid>, pool: seq<int>,
    userReaders: set<Tid>, guestReaders: set<Tid>, guestWriter: Option<Tid>,
    db: Db, threads: seq<Thread>, hist: seq<Tid>)

  predicate Init(s: State)
  {
    && s.sem == ENGINES && s.mutex.None? && s.pool == seq(ENGINES, i => i)
    && s.userReaders == {} && s.guestReaders == {} && s.guestWriter.None?
    && s.db.log == [] && s.db.updates == [] && s.hist == []
    && forall t :: 0 <= t < |s.threads| ==> s.threads[t].pc == Start
  }

  predicate WriterWaiting(s: State)
  {
    exists t :: 0 <= t < |s.threads| && s.threads[t].pc.WantWrite?
  }

  /** `prefer`: readers stand back while a writer waits, as QReadWriteLock makes them. */
  predicate CanStep(prefer: bool, s: State, t: Tid)
  {
    t < |s.threads| &&
    match s.threads[t].pc
    case Start => s.sem > 0
    case Acquired => s.mutex.None?
    case Giving(_, _) => s.mutex.None?
    case WantGuests(_) => s.guestWriter.None? && (prefer ==> !WriterWaiting(s))
    case WantWrite(_) => s.guestWriter.None? && s.guestReaders == {}
    case Done(_) => false
    case Crashed => false
    case _ => true
  }

  function At(s: State, t: Tid, pc: Pc): (s': State)
    requires t < |s.threads|
    ensures |s'.threads| == |s.threads|
  {
    s.(threads := s.threads[t := s.threads[t].(pc := pc)])
  }

  /** The request takes effect: it changes the database as the step says and enters the history. */
  function Effect(s: State, t: Tid, db: Db): State
  {
    s.(db := db, hist := s.hist + [t])
  }

  function Loaded(s: State, t: Tid, e: int): (s': State)
    requires t < |s.threads|
    ensures |s'.threads| == |s.threads|
  {
    var r := s.threads[t].req;
    if !r.loads then At(Effect(s, t, s.db), t, Giving(e, 1))
    else match r
         case Compare(_, _, _) => At(s, t, WantUsers(e))
         case AddUser(_, extracted, _, _) =>
           if extracted then At(s, t, Giving(e, 0)) else At(Effect(s, t, s.db), t, Giving(e, 1))
         case AddGuest(_, extracted, _, _) =>
           if extracted then At(s, t, WantWrite(e)) else At(Effect(s, t, s.db), t, Giving(e, 1))
  }

  function ScanUser(c: Config, s: State, t: Tid, e: int, i: nat): (s': State)
    requires t < |s.threads|
    ensures |s'.threads| == |s.threads|
  {
    var r := s.threads[t].req;
    if !r.Compare? || i >= |c.users| then At(s, t, UserDone(e, false))
    else if c.Matches(c.users[i].model, r.probe) then
      var log := s.db.log + [Record(c.users[i].id, USER, r.ip)];
      At(Effect(s, t, s.db.(log := log)), t, UserDone(e, true))
    else At(s, t, UserScan(e, i + 1))
  }

  function ScanGuest(c: Config, s: State, t: Tid, e: int, i: nat): (s': State)
    requires t < |s.threads|
    ensures |s'.threads| == |s.threads|
  {
    var r := s.threads[t].req;
    if !r.Compare? || i >= |s.db.guests| then At(Effect(s, t, s.db), t, GuestDone(e, 1))
    else if c.Matches(s.db.guests[i].model, r.probe) then
      var log := s.db.log + [Record(s.db.guests[i].id, GUEST, r.ip)];
      At(Effect(s, t, s.db.(log := log)), t, GuestDone(e, 0))
    else At(s, t, GuestScan(e, i + 1))
  }

  function Store(s: State, t: Tid): Db
    requires t < |s.threads|
  {
    match s.threads[t].req
    case Compare(_, _, _) => s.db
    case AddUser(_, _, model, id) => s.db.(updates := s.db.updates + [Entry(model, id)])
    case AddGuest(_, _, model, id) => s.db.(guests := s.db.guests + [Entry(model, id)])
  }

  function Step(c: Config, s: State, t: Tid): (s': State)
    requires CanStep(false, s, t)
    ensures |s'.threads| == |s.threads|
  {
    match s.threads[t].pc
    case Start => At(s.(sem := s.sem - 1), t, Acquired)
    case Acquired => At(s.(mutex := Some(t)), t, PopLocked)
    case PopLocked =>
      if s.pool == [] then At(s, t, Crashed)
      else At(s.(pool := s.pool[..|s.pool| - 1]), t, Popped(s.pool[|s.pool| - 1]))
    case Popped(e) => At(s.(mutex := None), t, Ready(e))
    case Ready(e) => Loaded(s, t, e)
    case WantUsers(e) => At(s.(userReaders := s.userReaders + {t}), t, UserScan(e, 0))
    case UserScan(e, i) => ScanUser(c, s, t, e, i)
    case UserDone(e, hit) =>
      At(s.(userReaders := s.userReaders - {t}), t, if hit then Giving(e, 0) else WantGuests(e))
    case WantGuests(e) =>
      var s1 := s.(guestReaders := s.guestReaders + {t},
                   threads := s.threads[t := s.threads[t].(snap := s.db.guests)]);
      At(s1, t, GuestScan(e, 0))
    case GuestScan(e, i) => ScanGuest(c, s, t, e, i)
    case GuestDone(e, ret) => At(s.(guestReaders := s.guestReaders - {t}), t, Giving(e, ret))
    case WantWrite(e) => At(s.(guestWriter := Some(t)), t, Appending(e))
    case Appending(e) => At(Effect(s, t, Store(s, t)), t, Appended(e))
    case Appended(e) => At(s.(guestWriter := None), t, Giving(e, 0))
    case Giving(e, ret) => At(s.(mutex := Some(t)), t, GiveLocked(e, ret))
    case GiveLocked(e, ret) => At(s.(pool := s.pool + [e]), t, Given(ret))
    case Given(ret) => At(s.(mutex := None), t, Releasing(ret))
    case Releasing(ret) =>
      At(s.(sem := s.sem + 1), t, if s.threads[t].req.AddUser? && ret == 0 then Storing else Done(ret))
    case Storing => At(Effect(s, t, Store(s, t)), t, Done(0))
  }

  /** A run names the thread that takes each step. */
  predicate IsRun(c: Config, s: State, ts: seq<Tid>)
    decreases |ts|
  {
    ts == [] || (CanStep(false, s, ts[0]) && IsRun(c, Step(c, s, ts[0]), ts[1..]))
  }

  function Final(c: Config, s: State, ts: seq<Tid>): (s': State)
    requires IsRun(c, s, ts)
    ensures |s'.threads| == |s.threads|
    decreases |ts|
  {
    if ts == [] then s else Final(c, Step(c, s, ts[0]), ts[1..])
  }
}
