/** What every step of the request protocol keeps: the locks, the engines, and what scans have learnt. */
module EngineInvariant {
  import opened Histories
  import opened Options
  import opened Sums
  import opened EngineSpec
  import opened EngineProtocol

  // ----- counting threads -----

  datatype Class =
    | Permits      // between the semaphore's acquire and its release
    | Holders      // has an engine index in hand
    | NotPopped    // acquired, has not popped
    | NotReleased  // pushed, has not released
    | Appenders    // has pushed a guest

  /** The index that the request is using. */
  predicate HasEngine(pc: Pc)
  {
    !(pc.Start? || pc.Acquired? || pc.PopLocked? || pc.Given? || pc.Releasing? || pc.Storing? || pc.Done? || pc.Crashed?)
  }

  /** The value the request will return, once it has taken effect. */
  function Result(th: Thread): Option<int>
  {
    match th.pc
    case UserDone(_, hit) => if hit then Some(0) else None
    case GuestDone(_, ret) => Some(ret)
    case Appended(_) => Some(0)
    case Giving(_, ret) => if th.req.AddUser? && ret == 0 then None else Some(ret)
    case GiveLocked(_, ret) => if th.req.AddUser? && ret == 0 then None else Some(ret)
    case Given(ret) => if th.req.AddUser? && ret == 0 then None else Some(ret)
    case Releasing(ret) => if th.req.AddUser? && ret == 0 then None else Some(ret)
    case Done(ret) => Some(ret)
    case _ => None
  }

  predicate In(k: Class, th: Thread)
  {
    match k
    case Permits => !(th.pc.Start? || th.pc.Storing? || th.pc.Done? || th.pc.Crashed?)
    case Holders => HasEngine(th.pc)
    case NotPopped => th.pc.Acquired? || th.pc.PopLocked?
    case NotReleased => th.pc.Given? || th.pc.Releasing?
    case Appenders => th.req.AddGuest? && Result(th) == Some(0)
  }

  function Are(k: Class): Thread -> bool
  {
    (th: Thread) => In(k, th)
  }

  /** Permits are held by those who have not popped, those with an engine, and those who have pushed. */
  lemma PermitsSplit(ts: seq<Thread>)
    ensures Count(ts, Are(Permits)) == Count(ts, Are(NotPopped)) + Count(ts, Are(Holders)) + Count(ts, Are(NotReleased))
  {
    SumSplit(ts, Indicator(Are(Permits)), Indicator(Are(NotPopped)), Indicator(Are(Holders)), Indicator(Are(NotReleased)));
  }

  /** A step changes the record of the thread that takes it, and of no other. */
  lemma StepCounts(c: Config, s: State, t: Tid)
    requires CanStep(false, s, t)
    ensures var s' := Step(c, s, t);
            && s'.threads == s.threads[t := s'.threads[t]]
            && s'.threads[t].req == s.threads[t].req
            && forall k: Class :: Count(s'.threads, Are(k)) == Count(s.threads, Are(k)) - One(In(k, s.threads[t])) + One(In(k, s'.threads[t]))
  {
    var s' := Step(c, s, t);
    assert s'.threads == s.threads[t := s'.threads[t]];
    forall k: Class ensures Count(s'.threads, Are(k)) == Count(s.threads, Are(k)) - One(In(k, s.threads[t])) + One(In(k, s'.threads[t])) {
      CountUpdate(s.threads, t, s'.threads[t], Are(k));
    }
  }

  // ----- locks -----

  predicate InPool(pc: Pc)
  {
    pc.PopLocked? || pc.Popped? || pc.GiveLocked? || pc.Given?
  }

  predicate ReadsUsers(pc: Pc)
  {
    pc.UserScan? || pc.UserDone?
  }

  predicate ReadsGuests(pc: Pc)
  {
    pc.GuestScan? || pc.GuestDone?
  }

  predicate WritesGuests(pc: Pc)
  {
    pc.Appending? || pc.Appended?
  }

  predicate MutexOk(s: State)
  {
    && (s.mutex.Some? ==> s.mutex.value < |s.threads|)
    && forall t :: 0 <= t < |s.threads| ==> (InPool(s.threads[t].pc) <==> s.mutex == Some(t))
  }

  predicate UserLockOk(s: State)
  {
    && (forall t :: t in s.userReaders ==> t < |s.threads|)
    && forall t :: 0 <= t < |s.threads| ==> (ReadsUsers(s.threads[t].pc) <==> t in s.userReaders)
  }

  /** The guest list is never locked for reading and for writing at once. */
  predicate GuestLockOk(s: State)
  {
    && (s.guestWriter.Some? ==> s.guestWriter.value < |s.threads| && s.guestReaders == {})
    && (forall t :: t in s.guestReaders ==> t < |s.threads|)
    && forall t :: 0 <= t < |s.threads| ==>
         && (ReadsGuests(s.threads[t].pc) <==> t in s.guestReaders)
         && (WritesGuests(s.threads[t].pc) <==> s.guestWriter == Some(t))
  }

  /** Every lock is held by exactly the threads whose program counters say so. */
  predicate LocksOk(s: State)
  {
    MutexOk(s) && UserLockOk(s) && GuestLockOk(s)
  }

  // ----- engines -----

  predicate Distinct(xs: seq<int>)
  {
    forall i, j :: 0 <= i < j < |xs| ==> xs[i] != xs[j]
  }

  /** The semaphore and the stack are short of ten by the requests that hold a permit or an index. */
  predicate CountsOk(s: State)
  {
    && s.sem + Count(s.threads, Are(Permits)) == ENGINES
    && |s.pool| + Count(s.threads, Are(Holders)) == ENGINES
    && (forall t :: 0 <= t < |s.threads| ==> !s.threads[t].pc.Crashed?)
  }

  /** No index is on the stack twice, with two requests, or both on the stack and with a request. */
  predicate StackOk(s: State)
  {
    && Distinct(s.pool)
    && (forall i :: 0 <= i < |s.pool| ==> 0 <= s.pool[i] < ENGINES)
    && (forall t :: 0 <= t < |s.threads| && HasEngine(s.threads[t].pc) ==>
          0 <= s.threads[t].pc.e < ENGINES && s.threads[t].pc.e !in s.pool)
    && (forall t, u :: 0 <= t < u < |s.threads| && HasEngine(s.threads[t].pc) && HasEngine(s.threads[u].pc) ==>
          s.threads[t].pc.e != s.threads[u].pc.e)
  }

  predicate EnginesOk(s: State)
  {
    CountsOk(s) && StackOk(s)
  }

  /** When a thread is about to take the top of the stack, there is one. */
  lemma TopExists(s: State, t: Tid)
    requires CountsOk(s) && t < |s.threads| && s.threads[t].pc.PopLocked?
    ensures s.pool != []
  {
    PermitsSplit(s.threads);
    NoneCounted(s.threads, Are(NotPopped));
  }

  // ----- scans -----

  predicate NoneBefore(c: Config, es: seq<Entry>, probe: Model, k: nat)
  {
    k <= |es| && forall i :: 0 <= i < k ==> !c.Matches(es[i].model, probe)
  }

  /** The verdict of a comparison in terms of the users and of the guests when the read lock was taken. */
  predicate ReturnOk(c: Config, th: Thread, ret: int)
  {
    var r := th.req;
    && (ret == 0 || ret == 1)
    && (!r.loads ==> ret == 1)
    && (r.loads && r.Compare? ==>
          (ret == 0 <==> Matched(c, c.users, r.probe) || Matched(c, th.snap, r.probe)))
    && (r.loads && !r.Compare? ==> (ret == 0 <==> r.extracted))
  }

  /** What the program counter of a request says about its input and about the lists. */
  predicate ThreadOk(c: Config, guests: seq<Entry>, th: Thread)
  {
    var r := th.req;
    match th.pc
    case WantUsers(_) => r.loads && r.Compare?
    case UserScan(_, i) => r.loads && r.Compare? && NoneBefore(c, c.users, r.probe, i)
    case UserDone(_, hit) =>
      r.loads && r.Compare? && (if hit then Matched(c, c.users, r.probe) else NoneBefore(c, c.users, r.probe, |c.users|))
    case WantGuests(_) => r.loads && r.Compare? && NoneBefore(c, c.users, r.probe, |c.users|)
    case GuestScan(_, i) =>
      && r.loads && r.Compare? && NoneBefore(c, c.users, r.probe, |c.users|)
      && th.snap == guests && NoneBefore(c, guests, r.probe, i)
    case GuestDone(_, ret) =>
      && r.loads && r.Compare? && NoneBefore(c, c.users, r.probe, |c.users|) && th.snap == guests
      && (if ret == 0 then Matched(c, guests, r.probe) else ret == 1 && NoneBefore(c, guests, r.probe, |guests|))
    case WantWrite(_) => r.loads && r.AddGuest? && r.extracted
    case Appending(_) => r.loads && r.AddGuest? && r.extracted
    case Appended(_) => r.loads && r.AddGuest? && r.extracted
    case Giving(_, ret) => ReturnOk(c, th, ret)
    case GiveLocked(_, ret) => ReturnOk(c, th, ret)
    case Given(ret) => ReturnOk(c, th, ret)
    case Releasing(ret) => ReturnOk(c, th, ret)
    case Storing => r.loads && r.AddUser? && r.extracted
    case Done(ret) => ReturnOk(c, th, ret)
    case _ => true
  }

  predicate ScansOk(c: Config, s: State)
  {
    forall t :: 0 <= t < |s.threads| ==> ThreadOk(c, s.db.guests, s.threads[t])
  }

  predicate Inv(c: Config, s: State)
  {
    LocksOk(s) && EnginesOk(s) && ScansOk(c, s)
  }

  lemma InitInv(c: Config, s: State)
    requires Init(s)
    ensures Inv(c, s)
  {
    NoneCounted(s.threads, Are(Permits));
    NoneCounted(s.threads, Are(Holders));
  }

  /** The program counter, engine and locks of every thread but `t` are as before. */
  lemma OthersKeep(c: Config, s: State, t: Tid)
    requires CanStep(false, s, t)
    ensures forall u :: 0 <= u < |s.threads| && u != t ==> Step(c, s, t).threads[u] == s.threads[u]
  {
    StepCounts(c, s, t);
  }

  lemma StepMutex(c: Config, s: State, t: Tid)
    requires MutexOk(s) && CountsOk(s) && CanStep(false, s, t)
    ensures MutexOk(Step(c, s, t))
  {
    OthersKeep(c, s, t);
    if s.threads[t].pc.PopLocked? {
      TopExists(s, t);
    }
  }

  lemma StepUserLock(c: Config, s: State, t: Tid)
    requires UserLockOk(s) && CanStep(false, s, t)
    ensures UserLockOk(Step(c, s, t))
  {
    OthersKeep(c, s, t);
  }

  lemma StepGuestLock(c: Config, s: State, t: Tid)
    requires GuestLockOk(s) && CanStep(false, s, t)
    ensures GuestLockOk(Step(c, s, t))
  {
    OthersKeep(c, s, t);
  }

  /** Only the pop and the push move an index. */
  lemma EngineKept(c: Config, s: State, t: Tid)
    requires CanStep(false, s, t) && !s.threads[t].pc.PopLocked? && !s.threads[t].pc.GiveLocked?
    ensures var s' := Step(c, s, t);
            && s'.pool == s.pool
            && (HasEngine(s'.threads[t].pc) <==> HasEngine(s.threads[t].pc))
            && (HasEngine(s.threads[t].pc) ==> s'.threads[t].pc.e == s.threads[t].pc.e)
  {
  }

  /** Only the acquire and the release move a permit. */
  lemma PermitKept(c: Config, s: State, t: Tid)
    requires CanStep(false, s, t) && !s.threads[t].pc.Start? && !s.threads[t].pc.Releasing?
    requires s.threads[t].pc.PopLocked? ==> s.pool != []
    ensures Step(c, s, t).sem == s.sem
    ensures One(In(Permits, Step(c, s, t).threads[t])) == One(In(Permits, s.threads[t]))
  {
  }

  lemma NeverCrashes(c: Config, s: State, t: Tid)
    requires CountsOk(s) && CanStep(false, s, t)
    ensures !Step(c, s, t).threads[t].pc.Crashed?
  {
    if s.threads[t].pc.PopLocked? {
      TopExists(s, t);
    }
  }

  lemma StepCountsOk(c: Config, s: State, t: Tid)
    requires CountsOk(s) && CanStep(false, s, t)
    ensures CountsOk(Step(c, s, t))
  {
    StepCounts(c, s, t);
    var pc := s.threads[t].pc;
    if pc.PopLocked? {
      TopExists(s, t);
    } else if !pc.GiveLocked? {
      EngineKept(c, s, t);
    }
    if !pc.Start? && !pc.Releasing? {
      PermitKept(c, s, t);
    }
    NeverCrashes(c, s, t);
  }

  lemma StepStack(c: Config, s: State, t: Tid)
    requires CountsOk(s) && StackOk(s) && CanStep(false, s, t)
    ensures StackOk(Step(c, s, t))
  {
    OthersKeep(c, s, t);
    if s.threads[t].pc.PopLocked? {
      TopExists(s, t);
    } else if s.threads[t].pc.GiveLocked? {
      assert s.threads[t].pc.e !in s.pool;
    } else {
      EngineKept(c, s, t);
    }
  }

  lemma StepScans(c: Config, s: State, t: Tid)
    requires LocksOk(s) && ScansOk(c, s) && CanStep(false, s, t)
    ensures ScansOk(c, Step(c, s, t))
  {
    StepCounts(c, s, t);
    var s' := Step(c, s, t);
    assert ThreadOk(c, s.db.guests, s.threads[t]);
    forall u | 0 <= u < |s.threads| && u != t ensures ThreadOk(c, s'.db.guests, s'.threads[u]) {
      assert ThreadOk(c, s.db.guests, s.threads[u]);
    }
  }

  lemma StepInv(c: Config, s: State, t: Tid)
    requires Inv(c, s) && CanStep(false, s, t)
    ensures Inv(c, Step(c, s, t))
  {
    StepMutex(c, s, t);
    StepUserLock(c, s, t);
    StepGuestLock(c, s, t);
    StepCountsOk(c, s, t);
    StepStack(c, s, t);
    StepScans(c, s, t);
  }

  lemma {:induction false} RunInv(c: Config, s: State, ts: seq<Tid>)
    requires Inv(c, s) && IsRun(c, s, ts)
    ensures Inv(c, Final(c, s, ts))
    decreases |ts|
  {
    if ts != [] {
      StepInv(c, s, ts[0]);
      RunInv(c, Step(c, s, ts[0]), ts[1..]);
    }
  }
}
