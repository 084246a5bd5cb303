/** The engine pool over whole runs: exclusive use, conservation, deadlock freedom and termination. */
module EngineProperties {
  import opened Options
  import opened Histories
  import opened Sums
  import opened EngineSpec
  import opened EngineProtocol
  import opened EngineInvariant

  lemma ReachableInv(c: Config, s0: State, ts: seq<Tid>)
    requires Init(s0) && IsRun(c, s0, ts)
    ensures Inv(c, Final(c, s0, ts))
  {
    InitInv(c, s0);
    RunInv(c, s0, ts);
  }

  // ----- the pool -----

  /** In every reachable state the stack holds one index for each free permit, for each request that has
      acquired but not popped, and for each that has pushed but not released. */
  lemma StackSize(c: Config, s0: State, ts: seq<Tid>)
    requires Init(s0) && IsRun(c, s0, ts)
    ensures var s := Final(c, s0, ts);
            |s.pool| == s.sem + Count(s.threads, Are(NotPopped)) + Count(s.threads, Are(NotReleased))
  {
    ReachableInv(c, s0, ts);
    PermitsSplit(Final(c, s0, ts).threads);
  }

  /** top() is never taken of an empty stack. */
  lemma TopIsNeverEmpty(c: Config, s0: State, ts: seq<Tid>, t: Tid)
    requires Init(s0) && IsRun(c, s0, ts) && t < |Final(c, s0, ts).threads|
    ensures Final(c, s0, ts).threads[t].pc.PopLocked? ==> Final(c, s0, ts).pool != []
    ensures !Final(c, s0, ts).threads[t].pc.Crashed?
  {
    ReachableInv(c, s0, ts);
    if Final(c, s0, ts).threads[t].pc.PopLocked? {
      TopExists(Final(c, s0, ts), t);
    }
  }

  function Held(ts: seq<Thread>): set<int>
  {
    if ts == [] then {} else
      var th := ts[|ts| - 1];
      Held(ts[..|ts| - 1]) + if HasEngine(th.pc) then {th.pc.e} else {}
  }

  function Elements(xs: seq<int>): set<int>
  {
    set x | x in xs
  }

  /** The indices that startEngines pushes. */
  function AllEngines(): set<int>
  {
    Elements(seq(ENGINES, i => i))
  }

  lemma {:induction false} ElementsSize(xs: seq<int>)
    requires Distinct(xs)
    ensures |Elements(xs)| == |xs|
  {
    if xs != [] {
      var front, x := xs[..|xs| - 1], xs[|xs| - 1];
      ElementsSize(front);
      assert Elements(xs) == Elements(front) + {x};
    }
  }

  lemma AllEnginesAre()
    ensures |AllEngines()| == ENGINES
    ensures forall e :: e in AllEngines() <==> 0 <= e < ENGINES
  {
    var xs := seq(ENGINES, i => i);
    ElementsSize(xs);
    forall e | 0 <= e < ENGINES ensures e in xs {
      assert xs[e] == e;
    }
  }

  lemma {:induction false} HeldIs(ts: seq<Thread>)
    ensures forall e :: e in Held(ts) <==> exists t :: 0 <= t < |ts| && HasEngine(ts[t].pc) && ts[t].pc.e == e
  {
    if ts != [] {
      HeldIs(ts[..|ts| - 1]);
    }
  }

  lemma {:induction false} HeldSize(ts: seq<Thread>)
    requires forall t, u :: 0 <= t < u < |ts| && HasEngine(ts[t].pc) && HasEngine(ts[u].pc) ==> ts[t].pc.e != ts[u].pc.e
    ensures |Held(ts)| == Count(ts, Are(Holders))
  {
    if ts != [] {
      HeldSize(ts[..|ts| - 1]);
      HeldIs(ts[..|ts| - 1]);
    }
  }

  lemma Partition(a: set<int>, b: set<int>, all: set<int>)
    requires a !! b && a <= all && b <= all && |a| + |b| == |all|
    ensures a + b == all
  {
    assert |a + b| == |a| + |b|;
    assert |all - (a + b)| == |all| - |a + b|;
  }

  lemma EnginesPartition(s: State)
    requires EnginesOk(s)
    ensures Elements(s.pool) + Held(s.threads) == AllEngines()
    ensures Elements(s.pool) !! Held(s.threads)
  {
    HeldIs(s.threads);
    HeldSize(s.threads);
    ElementsSize(s.pool);
    AllEnginesAre();
    forall e | e in Elements(s.pool) || e in Held(s.threads) ensures e in AllEngines() {
      assert 0 <= e < ENGINES;
    }
    Partition(Elements(s.pool), Held(s.threads), AllEngines());
  }

  /** The stack and the requests together have exactly the engines 0 to 9, each once: none is lost, none
      is duplicated, and no two requests use the same one. */
  lemma EnginesAreConserved(c: Config, s0: State, ts: seq<Tid>)
    requires Init(s0) && IsRun(c, s0, ts)
    ensures var s := Final(c, s0, ts);
            && (forall e :: e in Elements(s.pool) || e in Held(s.threads) <==> 0 <= e < 10)
            && Elements(s.pool) !! Held(s.threads)
            && Distinct(s.pool)
            && forall t, u :: 0 <= t < u < |s.threads| && HasEngine(s.threads[t].pc) && HasEngine(s.threads[u].pc) ==>
                 s.threads[t].pc.e != s.threads[u].pc.e
  {
    ReachableInv(c, s0, ts);
    EnginesPartition(Final(c, s0, ts));
    AllEnginesAre();
    var s := Final(c, s0, ts);
    assert forall e :: e in Elements(s.pool) + Held(s.threads) <==> 0 <= e < 10;
  }

  lemma QuietPool(s: State)
    requires EnginesOk(s) && forall t :: 0 <= t < |s.threads| ==> !In(Permits, s.threads[t])
    ensures s.sem == ENGINES && |s.pool| == ENGINES && Elements(s.pool) == AllEngines()
  {
    NoneCounted(s.threads, Are(Permits));
    PermitsSplit(s.threads);
    EnginesPartition(s);
    HeldIs(s.threads);
    assert Held(s.threads) == {};
  }

  lemma LocksAreFree(s: State)
    requires LocksOk(s) && forall t :: 0 <= t < |s.threads| ==> !In(Permits, s.threads[t])
    ensures s.mutex.None? && s.userReaders == {} && s.guestReaders == {} && s.guestWriter.None?
  {
    assert s.mutex.Some? ==> InPool(s.threads[s.mutex.value].pc);
    assert s.guestWriter.Some? ==> WritesGuests(s.threads[s.guestWriter.value].pc);
    forall t: Tid ensures t !in s.userReaders && t !in s.guestReaders {
      assert t < |s.threads| ==> !In(Permits, s.threads[t]);
    }
  }

  /** When no request is between its acquire and its release, the pool is as it was after startEngines,
      up to the order of the stack. */
  lemma QuietPoolIsFull(c: Config, s0: State, ts: seq<Tid>)
    requires Init(s0) && IsRun(c, s0, ts)
    requires forall t :: 0 <= t < |s0.threads| ==> !In(Permits, Final(c, s0, ts).threads[t])
    ensures var s := Final(c, s0, ts);
            && s.sem == 10 && |s.pool| == 10 && Distinct(s.pool)
            && (forall e :: e in s.pool <==> 0 <= e < 10) && s.mutex.None?
            && s.userReaders == {} && s.guestReaders == {} && s.guestWriter.None?
  {
    ReachableInv(c, s0, ts);
    QuietPool(Final(c, s0, ts));
    LocksAreFree(Final(c, s0, ts));
    AllEnginesAre();
    var s := Final(c, s0, ts);
    assert forall e :: e in s.pool <==> e in Elements(s.pool);
  }

  /** In every run, the database changes only under the right locks: the import log by a request that holds
      an engine and reads one of the two lists, the guests by one that holds an engine and the guest list
      alone, and the user updates by one that has given its engine back and is done. */
  lemma EffectsAreGuarded(c: Config, s0: State, ts: seq<Tid>, t: Tid)
    requires Init(s0) && IsRun(c, s0, ts) && CanStep(false, Final(c, s0, ts), t)
    ensures var s, s' := Final(c, s0, ts), Step(c, Final(c, s0, ts), t);
            && (s'.db.log != s.db.log ==>
                  HasEngine(s.threads[t].pc) && s.threads[t].req.Compare? && (t in s.userReaders || t in s.guestReaders))
            && (s'.db.guests != s.db.guests ==>
                  HasEngine(s.threads[t].pc) && s.threads[t].req.AddGuest? && s.guestWriter == Some(t) && s.guestReaders == {})
            && (s'.db.updates != s.db.updates ==>
                  !HasEngine(s.threads[t].pc) && s.threads[t].req.AddUser? && s'.threads[t].pc == Done(0) && s'.sem == s.sem)
  {
    ReachableInv(c, s0, ts);
    var s := Final(c, s0, ts);
    assert ThreadOk(c, s.db.guests, s.threads[t]);
  }

  lemma {:induction false} RunKeepsRequests(c: Config, s: State, ts: seq<Tid>)
    requires IsRun(c, s, ts)
    ensures |Final(c, s, ts).threads| == |s.threads|
    ensures forall t :: 0 <= t < |s.threads| ==> Final(c, s, ts).threads[t].req == s.threads[t].req
    decreases |ts|
  {
    if ts != [] {
      StepCounts(c, s, ts[0]);
      RunKeepsRequests(c, Step(c, s, ts[0]), ts[1..]);
    }
  }

  // ----- deadlock freedom -----

  /** Whoever holds the pool mutex can go on at once. */
  lemma MutexHolderCanStep(prefer: bool, s: State)
    requires MutexOk(s) && s.mutex.Some?
    ensures CanStep(prefer, s, s.mutex.value)
  {
    assert InPool(s.threads[s.mutex.value].pc);
  }

  /** Waiting for the semaphore, for the pool mutex, or for the guest lock. */
  predicate MayBlock(pc: Pc)
  {
    pc.Start? || pc.Acquired? || pc.Giving? || pc.WantGuests? || pc.WantWrite?
  }

  /** With the mutex free and everybody waiting, the guest lock is free too, so whoever waits for it can
      have it: first a writer if there is one, else any reader. */
  lemma SomeoneGetsTheGuestLock(prefer: bool, s: State, t: Tid) returns (u: Tid)
    requires GuestLockOk(s) && t < |s.threads|
    requires forall v :: 0 <= v < |s.threads| ==> MayBlock(s.threads[v].pc) || s.threads[v].pc.Done?
    requires s.threads[t].pc.WantGuests? || s.threads[t].pc.WantWrite?
    ensures CanStep(prefer, s, u)
  {
    assert s.guestWriter.Some? ==> WritesGuests(s.threads[s.guestWriter.value].pc);
    forall v: Tid ensures v !in s.guestReaders {
      assert v < |s.threads| ==> !ReadsGuests(s.threads[v].pc);
    }
    if WriterWaiting(s) {
      u :| 0 <= u < |s.threads| && s.threads[u].pc.WantWrite?;
    } else {
      u := t;
    }
  }

  /** Any number of requests of any kind: as long as one is unfinished, some request can take a step,
      whether or not readers stand back for waiting writers. */
  lemma DeadlockFree(prefer: bool, c: Config, s: State) returns (t: Tid)
    requires Inv(c, s)
    requires exists u :: 0 <= u < |s.threads| && !s.threads[u].pc.Done?
    ensures t < |s.threads| && CanStep(prefer, s, t)
  {
    var u :| 0 <= u < |s.threads| && !s.threads[u].pc.Done?;
    if s.mutex.Some? {
      MutexHolderCanStep(prefer, s);
      t := s.mutex.value;
    } else if v :| 0 <= v < |s.threads| && !MayBlock(s.threads[v].pc) && !s.threads[v].pc.Done? {
      t := v;
    } else if v :| 0 <= v < |s.threads| && (s.threads[v].pc.Acquired? || s.threads[v].pc.Giving?) {
      t := v;
    } else if v :| 0 <= v < |s.threads| && (s.threads[v].pc.WantGuests? || s.threads[v].pc.WantWrite?) {
      t := SomeoneGetsTheGuestLock(prefer, s, v);
    } else {
      assert s.threads[u].pc.Start?;
      NoneCounted(s.threads, Are(Permits));
      t := u;
    }
  }

  // ----- termination -----

  /** How many steps a request may still take, for `u` users and a guest list of at most `g` entries. */
  function Rank(u: nat, g: nat, pc: Pc): nat
  {
    match pc
    case Start => 16 + g + u
    case Acquired => 15 + g + u
    case PopLocked => 14 + g + u
    case Popped(_) => 13 + g + u
    case Ready(_) => 12 + g + u
    case WantUsers(_) => 11 + g + u
    case UserScan(_, i) => 10 + g + (if i <= u then u - i else 0)
    case UserDone(_, _) => 9 + g
    case WantGuests(_) => 8 + g
    case GuestScan(_, i) => 7 + (if i <= g then g - i else 0)
    case GuestDone(_, _) => 6
    case WantWrite(_) => 8
    case Appending(_) => 7
    case Appended(_) => 6
    case Giving(_, _) => 5
    case GiveLocked(_, _) => 4
    case Given(_) => 3
    case Releasing(_) => 2
    case Storing => 1
    case Done(_) => 0
    case Crashed => 0
  }

  function RankOf(u: nat, g: nat): Thread -> nat
  {
    (th: Thread) => Rank(u, g, th.pc)
  }

  function TotalRank(u: nat, g: nat, ts: seq<Thread>): nat
  {
    Sum(ts, RankOf(u, g))
  }

  /** One guest for each add-guest request that has taken effect, on top of the `g0` from before. */
  predicate GuestsCounted(g0: nat, s: State)
  {
    |s.db.guests| == g0 + Count(s.threads, Are(Appenders))
  }

  lemma StepGuestsCounted(g0: nat, c: Config, s: State, t: Tid)
    requires ScansOk(c, s) && GuestsCounted(g0, s) && CanStep(false, s, t)
    ensures GuestsCounted(g0, Step(c, s, t))
  {
    StepCounts(c, s, t);
    assert ThreadOk(c, s.db.guests, s.threads[t]);
  }

  lemma RankDrops(g: nat, c: Config, s: State, t: Tid)
    requires ScansOk(c, s) && |s.db.guests| <= g && CanStep(false, s, t)
    ensures Rank(|c.users|, g, Step(c, s, t).threads[t].pc) < Rank(|c.users|, g, s.threads[t].pc)
  {
    assert ThreadOk(c, s.db.guests, s.threads[t]);
  }

  lemma StepLowersRank(g: nat, c: Config, s: State, t: Tid)
    requires ScansOk(c, s) && |s.db.guests| <= g && CanStep(false, s, t)
    ensures TotalRank(|c.users|, g, Step(c, s, t).threads) < TotalRank(|c.users|, g, s.threads)
  {
    StepCounts(c, s, t);
    RankDrops(g, c, s, t);
    SumUpdate(s.threads, t, Step(c, s, t).threads[t], RankOf(|c.users|, g));
  }

  lemma StepMeasure(g0: nat, g: nat, c: Config, s: State, t: Tid)
    requires Inv(c, s) && GuestsCounted(g0, s) && g == g0 + |s.threads| && CanStep(false, s, t)
    ensures Inv(c, Step(c, s, t)) && GuestsCounted(g0, Step(c, s, t)) && |Step(c, s, t).threads| == |s.threads|
    ensures TotalRank(|c.users|, g, Step(c, s, t).threads) < TotalRank(|c.users|, g, s.threads)
  {
    StepInv(c, s, t);
    StepGuestsCounted(g0, c, s, t);
    SumBound(s.threads, Indicator(Are(Appenders)), 1);
    StepLowersRank(g, c, s, t);
  }

  lemma {:induction false} RunsAreShort(g0: nat, g: nat, c: Config, s: State, ts: seq<Tid>)
    requires Inv(c, s) && GuestsCounted(g0, s) && g == g0 + |s.threads| && IsRun(c, s, ts)
    ensures |ts| <= TotalRank(|c.users|, g, s.threads)
    decreases |ts|
  {
    if ts != [] {
      var s1, rest := Step(c, s, ts[0]), ts[1..];
      StepMeasure(g0, g, c, s, ts[0]);
      assert IsRun(c, s1, rest);
      RunsAreShort(g0, g, c, s1, rest);
    }
  }

  /** Every run of any set of requests is finite, with an explicit bound. */
  lemma EveryRunEnds(c: Config, s0: State, ts: seq<Tid>)
    requires Init(s0) && IsRun(c, s0, ts)
    ensures |ts| <= |s0.threads| * (16 + (|s0.db.guests| + |s0.threads|) + |c.users|)
  {
    InitInv(c, s0);
    NoneCounted(s0.threads, Are(Appenders));
    RunsAreShort(|s0.db.guests|, |s0.db.guests| + |s0.threads|, c, s0, ts);
    var g := |s0.db.guests| + |s0.threads|;
    SumBound(s0.threads, RankOf(|c.users|, g), 16 + g + |c.users|);
  }

  /** A run that cannot be continued, even if readers stand back for waiting writers, has answered every
      request. */
  lemma EveryRequestIsAnswered(prefer: bool, c: Config, s0: State, ts: seq<Tid>)
    requires Init(s0) && IsRun(c, s0, ts)
    requires forall t :: 0 <= t < |s0.threads| ==> !CanStep(prefer, Final(c, s0, ts), t)
    ensures forall t :: 0 <= t < |s0.threads| ==> Final(c, s0, ts).threads[t].pc.Done?
  {
    var s := Final(c, s0, ts);
    ReachableInv(c, s0, ts);
    if u :| 0 <= u < |s.threads| && !s.threads[u].pc.Done? {
      var t := DeadlockFree(prefer, c, s);
      assert false;
    }
  }
}
