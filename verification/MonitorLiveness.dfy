/** What the queue invariants mean for its callers: who can be left waiting, and for how long. */
module MonitorLiveness {
  import opened Options
  import opened Histories
  import opened Sums
  import opened Monitor

  // ----- holder_ -----

  /** isLockedByThisThread() is true for a thread only while it owns the mutex, in every run; and it is
      true at every test of a wait loop, in particular on return from a wait. */
  lemma HolderIsSound<T>(s0: State<T>, ls: seq<Label>, t: Tid)
    requires Init(s0) && IsRun(s0, ls) && t < |Final(s0, ls).threads|
    ensures var s := Final(s0, ls);
            && (s.holder == Some(t) ==> s.owner == Some(t))
            && (s.threads[t].pc.Testing? ==> s.holder == Some(t))
            && (s.owner.None? ==> s.holder.None?)
  {
    InitInv(s0);
    RunInv(s0, ls);
  }

  /** At most one thread is past its lock and before its release or wait. */
  lemma MutualExclusion<T>(s0: State<T>, ls: seq<Label>, t: Tid, u: Tid)
    requires Init(s0) && IsRun(s0, ls) && t < |s0.threads| && u < |s0.threads|
    requires Owns(Final(s0, ls).threads[t].pc) && Owns(Final(s0, ls).threads[u].pc)
    ensures t == u
  {
    InitInv(s0);
    RunInv(s0, ls);
  }

  lemma GuardedStep<T>(s: State<T>, l: Label)
    requires LocksOk(s) && Enabled(s, l)
    ensures Next(s, l).queue != s.queue || (l.Go? && l.wake.Some?) ==>
              l.Go? && s.owner == Some(l.t) && s.holder == Some(l.t)
  {
    if l.Go? {
      var pc := s.threads[l.t].pc;
      assert Holds(pc) <==> s.holder == Some(l.t);
      if !pc.Passed? && !pc.Acted? {
        assert Next(s, l).queue == s.queue;
      }
    }
  }

  /** The queue is touched, and a signal sent, only by a thread that owns the mutex and is its holder. */
  lemma QueueIsGuarded<T>(s0: State<T>, ls: seq<Label>, l: Label)
    requires Init(s0) && IsRun(s0, ls) && Enabled(Final(s0, ls), l)
    ensures var s, s' := Final(s0, ls), Next(Final(s0, ls), l);
            s'.queue != s.queue || (l.Go? && l.wake.Some?) ==> l.Go? && s.owner == Some(l.t) && s.holder == Some(l.t)
  {
    InitInv(s0);
    RunInv(s0, ls);
    GuardedStep(Final(s0, ls), l);
  }

  // ----- histories -----

  /** First in, first out over every run; the buffer is never overfull; and each push was made into a
      buffer with room, so that none has overwritten an element. */
  lemma QueueIsFifo<T>(s0: State<T>, ls: seq<Label>)
    requires Init(s0) && IsRun(s0, ls)
    ensures var s := Final(s0, ls);
            && s.takeLog + s.queue == s.putLog
            && (s.cap.Some? ==> |s.queue| <= s.cap.value)
            && (forall t :: 0 <= t < |s.threads| && s.threads[t].pc.Passed? && s.threads[t].op.Put? ==> !Full(s))
            && (forall t :: 0 <= t < |s.threads| && s.threads[t].pc.Passed? && s.threads[t].op.Take? ==> s.queue != [])
  {
    InitInv(s0);
    RunInv(s0, ls);
  }

  lemma {:induction false} LogsGrow<T>(s: State<T>, ls: seq<Label>)
    requires IsRun(s, ls)
    ensures s.putters <= Final(s, ls).putters && s.takers <= Final(s, ls).takers
    decreases |ls|
  {
    if ls != [] {
      LogsGrow(Next(s, ls[0]), ls[1..]);
    }
  }

  /** The logs are those of the calls: each put that has been performed is logged once, with its value, and
      each take once; and the take performed k-th got the value of the put performed k-th. */
  lemma LogsAreTheCalls<T>(s0: State<T>, ls: seq<Label>)
    requires Init(s0) && IsRun(s0, ls)
    ensures var s := Final(s0, ls);
            && |s.putters| == |s.putLog| && |s.takers| == |s.takeLog| <= |s.putLog|
            && ListsActors(s.threads, s.putters, true) && ListsActors(s.threads, s.takers, false)
            && (forall k :: 0 <= k < |s.putters| ==> s.threads[s.putters[k]].op == Put(s.putLog[k]))
            && (forall k :: 0 <= k < |s.takers| ==> s.threads[s.putters[k]].op == Put(s.takeLog[k]))
  {
    InitInv(s0);
    RunInv(s0, ls);
    var s := Final(s0, ls);
    assert forall k :: 0 <= k < |s.takeLog| ==> s.putLog[k] == (s.takeLog + s.queue)[k];
  }

  lemma {:induction false} RunKeepsCallers<T>(s: State<T>, ls: seq<Label>)
    requires IsRun(s, ls)
    ensures Final(s, ls).cap == s.cap && |Final(s, ls).threads| == |s.threads|
    ensures forall t :: 0 <= t < |s.threads| ==> Final(s, ls).threads[t].op == s.threads[t].op
    decreases |ls|
  {
    if ls != [] {
      RunKeepsCallers(Next(s, ls[0]), ls[1..]);
    }
  }

  /** The order of the logs respects real time: a call that returned, or had at least been performed, before
      another of its kind began comes before that one. */
  lemma LogsRespectRealTime<T>(s0: State<T>, ls: seq<Label>, more: seq<Label>, t: Tid, u: Tid)
    requires Init(s0) && IsRun(s0, ls) && IsRun(Final(s0, ls), more)
    requires t < |s0.threads| && u < |s0.threads|
    requires HasActed(Final(s0, ls).threads[t].pc) && Final(s0, ls).threads[u].pc == Fresh
    requires HasActed(Final(Final(s0, ls), more).threads[u].pc)
    requires Final(s0, ls).threads[t].op.Put? == Final(s0, ls).threads[u].op.Put?
    ensures var s' := Final(Final(s0, ls), more);
            Precedes(if s'.threads[u].op.Put? then s'.putters else s'.takers, t, u)
  {
    var s, s' := Final(s0, ls), Final(Final(s0, ls), more);
    InitInv(s0);
    RunInv(s0, ls);
    RunInv(s, more);
    RunKeepsCallers(s, more);
    LogsGrow(s, more);
    if s.threads[u].op.Put? {
      LaterEntries(s.putters, s'.putters, t, u);
    } else {
      LaterEntries(s.takers, s'.takers, t, u);
    }
  }

  // ----- wakeups -----

  /** Whenever the mutex is free, sleeping takers leave no element unclaimed: there are at least as many
      woken takers as elements; and symmetrically for putters and free slots. */
  lemma NoLostWakeup<T>(s: State<T>)
    requires Inv(s) && s.owner.None?
    ensures forall t :: 0 <= t < |s.threads| && s.threads[t].pc.Asleep? && s.threads[t].op.Take? ==>
              |s.queue| <= Count(s.threads, Are(Resuming(false)))
    ensures forall t :: 0 <= t < |s.threads| && s.threads[t].pc.Asleep? && s.threads[t].op.Put? && s.cap.Some? ==>
              s.cap.value - |s.queue| <= Count(s.threads, Are(Resuming(true)))
  {
    NoneCounted(s.threads, Are(Signalling(true)));
    NoneCounted(s.threads, Are(Signalling(false)));
    forall t | 0 <= t < |s.threads| && s.threads[t].pc.Asleep? ensures Count(s.threads, Are(Sleeping(s.threads[t].op.Put?))) > 0 {
      NoneCounted(s.threads, Are(Sleeping(s.threads[t].op.Put?)));
    }
  }

  /** No thread can take a step of its own; only a spurious wakeup could change the state. */
  predicate Stuck<T>(s: State<T>)
  {
    forall t :: 0 <= t < |s.threads| ==> !CanStep(s, t)
  }

  /** A stuck state has finished callers, and sleepers with good reason: sleeping takers only on an
      empty queue, sleeping putters only on a full one, and never both if there is any capacity. */
  lemma StuckMeansWaitingForGoodReason<T>(s: State<T>)
    requires Inv(s) && Stuck(s)
    ensures s.owner.None?
    ensures forall t :: 0 <= t < |s.threads| ==> s.threads[t].pc.Done? || s.threads[t].pc.Asleep?
    ensures forall t :: 0 <= t < |s.threads| && s.threads[t].pc.Asleep? ==> Blocked(s, s.threads[t].op)
    ensures s.cap != Some(0) ==> forall t, u ::
              0 <= t < |s.threads| && 0 <= u < |s.threads| && s.threads[t].pc.Asleep? && s.threads[u].pc.Asleep? ==>
                s.threads[t].op.Put? == s.threads[u].op.Put?
  {
    if s.owner.Some? {
      assert CanStep(s, s.owner.value);
      assert false;
    }
    forall t | 0 <= t < |s.threads| ensures s.threads[t].pc.Done? || s.threads[t].pc.Asleep? {
      assert !CanStep(s, t);
    }
    NoLostWakeup(s);
    NoneCounted(s.threads, Are(Resuming(true)));
    NoneCounted(s.threads, Are(Resuming(false)));
  }

  lemma SleeperIsOutnumbered<T>(s: State<T>, t: Tid)
    requires Inv(s) && t < |s.threads| && s.threads[t].pc.Asleep? && Blocked(s, s.threads[t].op)
    requires forall u :: 0 <= u < |s.threads| ==> s.threads[u].pc.Done? || s.threads[u].pc.Asleep?
    requires forall u :: 0 <= u < |s.threads| && s.threads[u].pc.Asleep? ==> s.threads[u].op.Put? == s.threads[t].op.Put?
    ensures s.threads[t].op.Take? ==> Count(s.threads, Are(Calling(true))) < Count(s.threads, Are(Calling(false)))
    ensures s.threads[t].op.Put? ==>
              s.cap.Some? && Count(s.threads, Are(Calling(false))) + s.cap.value < Count(s.threads, Are(Calling(true)))
  {
    var put := s.threads[t].op.Put?;
    SumLess(s.threads, Indicator(Are(Acting(put))), Indicator(Are(Calling(put))), t);
    SumAtMost(s.threads, Indicator(Are(Calling(!put))), Indicator(Are(Acting(!put))));
    assert |s.takeLog| + |s.queue| == |s.putLog|;
  }

  /** In a stuck state every take has returned if there are at least as many puts as takes, and every
      put has returned if there are at most as many puts as takes and free slots. */
  lemma StuckMeansServed<T>(s: State<T>)
    requires Inv(s) && Stuck(s) && s.cap != Some(0)
    ensures Count(s.threads, Are(Calling(false))) <= Count(s.threads, Are(Calling(true))) ==>
              forall t :: 0 <= t < |s.threads| && s.threads[t].op.Take? ==> s.threads[t].pc.Done?
    ensures s.cap.None? || Count(s.threads, Are(Calling(true))) <= Count(s.threads, Are(Calling(false))) + s.cap.value ==>
              forall t :: 0 <= t < |s.threads| && s.threads[t].op.Put? ==> s.threads[t].pc.Done?
  {
    StuckMeansWaitingForGoodReason(s);
    forall t | 0 <= t < |s.threads| && !s.threads[t].pc.Done?
      ensures s.threads[t].op.Take? ==> Count(s.threads, Are(Calling(true))) < Count(s.threads, Are(Calling(false)))
      ensures s.threads[t].op.Put? ==>
                s.cap.Some? && Count(s.threads, Are(Calling(false))) + s.cap.value < Count(s.threads, Are(Calling(true)))
    {
      SleeperIsOutnumbered(s, t);
    }
  }

  // ----- no run goes on forever by itself -----

  /** How many steps a thread can still take, apart from what later signals add. */
  function Rank(pc: Pc): nat
  {
    match pc
    case Fresh => 12
    case Locked => 11
    case Testing(_) => 10
    case Waiting => 9
    case Parting => 8
    case Asleep => 7
    case Woken => 12
    case Relocked => 11
    case Passed(_) => 9
    case Acted => 8
    case Leaving => 2
    case Unlocking => 1
    case Done => 0
  }

  function RankOf<T>(): Thread<T> -> nat
  {
    (th: Thread<T>) => Rank(th.pc)
  }

  function TotalRank<T>(ts: seq<Thread<T>>): nat
  {
    Sum(ts, RankOf())
  }

  function SpuriousWakeups(ls: seq<Label>): nat
  {
    if ls == [] then 0 else (if ls[0].Spurious? then 1 else 0) + SpuriousWakeups(ls[1..])
  }

  lemma NotifyLowersRank<T>(s: State<T>, t: Tid, wake: Option<Tid>)
    requires CanStep(s, t) && s.threads[t].pc.Acted? && WakeOk(s, t, wake)
    ensures TotalRank(Step(s, t, wake).threads) < TotalRank(s.threads)
  {
    var s1 := At(s, t, Leaving);
    SumUpdate(s.threads, t, s1.threads[t], RankOf());
    if wake.Some? {
      SumUpdate(s1.threads, wake.value, s1.threads[wake.value].(pc := Woken), RankOf());
    }
  }

  /** A step lowers the total, even when it signals; a spurious wakeup raises it by five. */
  lemma StepLowersRank<T>(s: State<T>, l: Label)
    requires Enabled(s, l)
    ensures TotalRank(Next(s, l).threads) + 1 <= TotalRank(s.threads) + if l.Spurious? then 6 else 0
  {
    match l
    case Spurious(t) => SumUpdate(s.threads, t, s.threads[t].(pc := Woken), RankOf());
    case Go(t, wake) =>
      if s.threads[t].pc.Acted? {
        NotifyLowersRank(s, t, wake);
      } else {
        var s' := Step(s, t, wake);
        SumUpdate(s.threads, t, s'.threads[t], RankOf());
        assert s'.threads == s.threads[t := s'.threads[t]];
      }
  }

  lemma {:induction false} RunsAreShort<T>(s: State<T>, ls: seq<Label>)
    requires IsRun(s, ls)
    ensures |ls| + TotalRank(Final(s, ls).threads) <= TotalRank(s.threads) + 6 * SpuriousWakeups(ls)
    decreases |ls|
  {
    if ls != [] {
      StepLowersRank(s, ls[0]);
      RunsAreShort(Next(s, ls[0]), ls[1..]);
    }
  }

  lemma RunKeepsCallerCounts<T>(s: State<T>, ls: seq<Label>, put: bool)
    requires IsRun(s, ls)
    ensures Count(Final(s, ls).threads, Are(Calling(put))) == Count(s.threads, Are(Calling(put)))
  {
    RunKeepsCallers(s, ls);
    SumSame(Final(s, ls).threads, s.threads, Indicator(Are(Calling(put))));
  }

  /** Any set of callers, scheduled in any way, is quiet after at most twelve steps each and six for every
      spurious wakeup; and if nothing more can happen then, with at least one slot, every take has returned
      provided the puts suffice, and every put has provided the takes and the capacity suffice. */
  lemma EveryCallerIsServed<T>(s0: State<T>, ls: seq<Label>)
    requires Init(s0) && s0.cap != Some(0) && IsRun(s0, ls)
    ensures |ls| <= 12 * |s0.threads| + 6 * SpuriousWakeups(ls)
    ensures Stuck(Final(s0, ls)) && Count(s0.threads, Are(Calling(false))) <= Count(s0.threads, Are(Calling(true))) ==>
              forall t :: 0 <= t < |Final(s0, ls).threads| && Final(s0, ls).threads[t].op.Take? ==>
                Final(s0, ls).threads[t].pc.Done?
    ensures Stuck(Final(s0, ls))
            && (s0.cap.None? || Count(s0.threads, Are(Calling(true))) <= Count(s0.threads, Are(Calling(false))) + s0.cap.value) ==>
              forall t :: 0 <= t < |Final(s0, ls).threads| && Final(s0, ls).threads[t].op.Put? ==>
                Final(s0, ls).threads[t].pc.Done?
  {
    var s := Final(s0, ls);
    RunsAreShort(s0, ls);
    SumBound(s0.threads, RankOf(), 12);
    InitInv(s0);
    RunInv(s0, ls);
    RunKeepsCallerCounts(s0, ls, true);
    RunKeepsCallerCounts(s0, ls, false);
    RunKeepsCallers(s0, ls);
    if Stuck(s) {
      StuckMeansServed(s);
    }
  }

  /** A run that is not stuck can be continued without waiting for a spurious wakeup. */
  lemma NotStuckCanGo<T>(s: State<T>) returns (l: Label)
    requires !Stuck(s)
    ensures l.Go? && Enabled(s, l)
  {
    var t :| 0 <= t < |s.threads| && CanStep(s, t);
    if s.threads[t].pc.Acted? && exists w :: 0 <= w < |s.threads| && IsTarget(s, t, w) {
      var w :| 0 <= w < |s.threads| && IsTarget(s, t, w);
      l := Go(t, Some(w));
    } else {
      l := Go(t, None);
    }
  }

  predicate NeverPassed(pc: Pc)
  {
    !(pc.Passed? || pc.Acted? || pc.Leaving? || pc.Unlocking? || pc.Done?)
  }

  /** The capacity is needed: without it, no put and no take ever gets past its test. */
  lemma {:induction false} NoCapacityNoService<T>(s: State<T>, ls: seq<Label>)
    requires s.cap == Some(0) && s.queue == [] && IsRun(s, ls)
    requires forall t :: 0 <= t < |s.threads| ==> NeverPassed(s.threads[t].pc)
    ensures forall t :: 0 <= t < |Final(s, ls).threads| ==> NeverPassed(Final(s, ls).threads[t].pc)
    decreases |ls|
  {
    if ls != [] {
      NoCapacityNoService(Next(s, ls[0]), ls[1..]);
    }
  }
}
