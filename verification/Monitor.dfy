/** BoundedBlockingQueue and BlockingQueue, with Mutex and Condition, as a system of interleaved steps:
    each pthread operation, each assignment to holder_ and each queue operation is one step. */
module Monitor {
  import opened Options
  import opened Histories
  import opened Sums

  datatype Op<T> = Put(value: T) | Take

  datatype Pc =
    | Fresh                    // about to lock the mutex
    | Locked                   // owns the mutex; holder_ not yet assigned
    | Testing(resumed: bool)   // at the test of the wait loop, for the first time or after a wait
    | Waiting                  // the test said wait
    | Parting                  // holder_ cleared, about to release the mutex inside the wait
    | Asleep                   // on the condition variable
    | Woken                    // signalled (or not), competing for the mutex
    | Relocked                 // owns the mutex again; still inside the wait
    | Passed(resumed: bool)    // the test said go
    | Acted                    // pushed or popped, about to notify
    | Leaving                  // about to clear holder_
    | Unlocking                // about to release the mutex
    | Done

  datatype Thread<T> = Thread(op: Op<T>, pc: Pc)

  /** `cap` is None for the unbounded queue. The logs record the values pushed and popped, and the threads
      that did so. */
  datatype State<T> = State(
    cap: Option<nat>, owner: Option<Tid>, holder: Option<Tid>,
    queue: seq<T>, putLog: seq<T>, putters: seq<Tid>, takeLog: seq<T>, takers: seq<Tid>,
    threads: seq<Thread<T>>)

  predicate Full<T>(s: State<T>)
  {
    s.cap.Some? && |s.queue| == s.cap.value
  }

  /** What the wait loop of the operation tests. */
  predicate Blocked<T>(s: State<T>, op: Op<T>)
  {
    if op.Put? then Full(s) else |s.queue| == 0
  }

  /** Pushing into a full circular buffer overwrites the oldest element. */
  function CircularPush<T>(cap: Option<nat>, q: seq<T>, x: T): seq<T>
  {
    if cap.None? || |q| < cap.value then q + [x]
    else if cap.value == 0 then q
    else q[1..] + [x]
  }

  predicate Init<T>(s: State<T>)
  {
    && s.owner.None? && s.holder.None? && s.queue == []
    && s.putLog == [] && s.putters == [] && s.takeLog == [] && s.takers == []
    && forall t :: 0 <= t < |s.threads| ==> s.threads[t].pc == Fresh
  }

  predicate CanStep<T>(s: State<T>, t: Tid)
  {
    t < |s.threads| &&
    match s.threads[t].pc
    case Fresh => s.owner.None?
    case Woken => s.owner.None?
    case Asleep => false
    case Done => false
    case _ => true
  }

  /** The unbounded queue's take notifies nobody. */
  predicate Notifies<T>(s: State<T>, t: Tid)
    requires t < |s.threads|
  {
    s.threads[t].op.Put? || s.cap.Some?
  }

  /** `w` sleeps on the condition variable that thread `t` signals. */
  predicate IsTarget<T>(s: State<T>, t: Tid, w: Tid)
    requires t < |s.threads|
  {
    && w < |s.threads| && s.threads[w].pc == Asleep
    && Notifies(s, t) && s.threads[w].op.Put? != s.threads[t].op.Put?
  }

  /** A signal wakes one sleeper, any one, if there is one. */
  predicate WakeOk<T>(s: State<T>, t: Tid, wake: Option<Tid>)
    requires t < |s.threads|
  {
    if s.threads[t].pc == Acted then
      match wake
      case Some(w) => IsTarget(s, t, w)
      case None => forall w :: 0 <= w < |s.threads| ==> !IsTarget(s, t, w)
    else wake.None?
  }

  function At<T>(s: State<T>, t: Tid, pc: Pc): (s': State<T>)
    requires t < |s.threads|
    ensures |s'.threads| == |s.threads|
  {
    s.(threads := s.threads[t := s.threads[t].(pc := pc)])
  }

  /** The queue operation itself. */
  function Act<T>(s: State<T>, t: Tid): State<T>
    requires t < |s.threads|
  {
    match s.threads[t].op
    case Put(x) =>
      s.(queue := CircularPush(s.cap, s.queue, x), putLog := s.putLog + [x], putters := s.putters + [t])
    case Take =>
      if s.queue == [] then s
      else s.(queue := s.queue[1..], takeLog := s.takeLog + [s.queue[0]], takers := s.takers + [t])
  }

  function Step<T>(s: State<T>, t: Tid, wake: Option<Tid>): (s': State<T>)
    requires CanStep(s, t) && WakeOk(s, t, wake)
    ensures |s'.threads| == |s.threads|
  {
    match s.threads[t].pc
    case Fresh => At(s.(owner := Some(t)), t, Locked)
    case Locked => At(s.(holder := Some(t)), t, Testing(false))
    case Testing(resumed) => At(s, t, if Blocked(s, s.threads[t].op) then Waiting else Passed(resumed))
    case Waiting => At(s.(holder := None), t, Parting)
    case Parting => At(s.(owner := None), t, Asleep)
    case Woken => At(s.(owner := Some(t)), t, Relocked)
    case Relocked => At(s.(holder := Some(t)), t, Testing(true))
    case Passed(_) => At(Act(s, t), t, Acted)
    case Acted => var s1 := At(s, t, Leaving); if wake.Some? then At(s1, wake.value, Woken) else s1
    case Leaving => At(s.(holder := None), t, Unlocking)
    case Unlocking => At(s.(owner := None), t, Done)
  }

  /** A scheduled step of a thread, or a wakeup that no signal caused. */
  datatype Label = Go(t: Tid, wake: Option<Tid>) | Spurious(t: Tid)

  predicate Enabled<T>(s: State<T>, l: Label)
  {
    match l
    case Go(t, wake) => CanStep(s, t) && WakeOk(s, t, wake)
    case Spurious(t) => t < |s.threads| && s.threads[t].pc == Asleep
  }

  function Next<T>(s: State<T>, l: Label): (s': State<T>)
    requires Enabled(s, l)
    ensures |s'.threads| == |s.threads|
  {
    match l
    case Go(t, wake) => Step(s, t, wake)
    case Spurious(t) => At(s, t, Woken)
  }

  predicate IsRun<T>(s: State<T>, ls: seq<Label>)
    decreases |ls|
  {
    ls == [] || (Enabled(s, ls[0]) && IsRun(Next(s, ls[0]), ls[1..]))
  }

  function Final<T>(s: State<T>, ls: seq<Label>): (s': State<T>)
    requires IsRun(s, ls)
    ensures |s'.threads| == |s.threads|
    decreases |ls|
  {
    if ls == [] then s else Final(Next(s, ls[0]), ls[1..])
  }

  // ----- counting threads -----

  datatype Class =
    | Sleeping(put: bool)      // on the condition variable
    | Resuming(put: bool)      // woken by a signal or spuriously, and not yet through the test
    | Signalling(put: bool)    // has acted and not yet notified
    | Acting(put: bool)        // has pushed or popped
    | Calling(put: bool)       // every caller of the operation

  predicate In<T>(c: Class, th: Thread<T>)
  {
    th.op.Put? == c.put &&
    match c
    case Sleeping(_) => th.pc.Asleep?
    case Resuming(_) => th.pc.Woken? || th.pc.Relocked? || th.pc == Testing(true) || th.pc == Passed(true)
    case Signalling(_) => th.pc.Acted?
    case Acting(_) => th.pc.Acted? || th.pc.Leaving? || th.pc.Unlocking? || th.pc.Done?
    case Calling(_) => true
  }

  function Are<T>(c: Class): Thread<T> -> bool
  {
    (th: Thread<T>) => In(c, th)
  }

  lemma CountsUpdate<T>(s: State<T>, t: Tid, pc: Pc)
    requires t < |s.threads|
    ensures forall c :: Count(At(s, t, pc).threads, Are(c))
                     == Count(s.threads, Are(c)) - One(In(c, s.threads[t])) + One(In(c, s.threads[t].(pc := pc)))
  {
    forall c ensures Count(At(s, t, pc).threads, Are(c))
                  == Count(s.threads, Are(c)) - One(In(c, s.threads[t])) + One(In(c, s.threads[t].(pc := pc)))
    {
      CountUpdate(s.threads, t, s.threads[t].(pc := pc), Are(c));
    }
  }

  // ----- invariants -----

  predicate Owns(pc: Pc)
  {
    !(pc.Fresh? || pc.Asleep? || pc.Woken? || pc.Done?)
  }

  predicate Holds(pc: Pc)
  {
    Owns(pc) && !(pc.Locked? || pc.Parting? || pc.Relocked? || pc.Unlocking?)
  }

  /** The mutex has exactly the owner, and holder_ exactly the value, that the program counters say. */
  predicate LocksOk<T>(s: State<T>)
  {
    && (s.owner.Some? ==> s.owner.value < |s.threads|)
    && (s.holder.Some? ==> s.holder.value < |s.threads|)
    && forall t :: 0 <= t < |s.threads| ==>
         && (Owns(s.threads[t].pc) <==> s.owner == Some(t))
         && (Holds(s.threads[t].pc) <==> s.holder == Some(t))
  }

  /** What a thread learnt at its test stays true while it owns the mutex. */
  predicate TestsOk<T>(s: State<T>)
  {
    forall t :: 0 <= t < |s.threads| ==>
      && (s.threads[t].pc.Passed? ==> !Blocked(s, s.threads[t].op))
      && (s.threads[t].pc.Waiting? || s.threads[t].pc.Parting? ==> Blocked(s, s.threads[t].op))
      && (s.threads[t].pc.Asleep? && s.threads[t].op.Put? ==> s.cap.Some?)
  }

  /** First in, first out, nothing lost or invented, one push or pop for each operation. */
  ghost predicate FifoOk<T>(s: State<T>)
  {
    && s.takeLog + s.queue == s.putLog
    && (s.cap.Some? ==> |s.queue| <= s.cap.value)
    && |s.putLog| == Count(s.threads, Are(Acting(true)))
    && |s.takeLog| == Count(s.threads, Are(Acting(false)))
  }

  /** The operation has been performed on the queue. */
  predicate HasActed(pc: Pc)
  {
    pc.Acted? || pc.Leaving? || pc.Unlocking? || pc.Done?
  }

  /** `who` lists, once each, the puts (takes) that have been performed. */
  predicate ListsActors<T>(ts: seq<Thread<T>>, who: seq<Tid>, put: bool)
  {
    && (forall k :: 0 <= k < |who| ==> who[k] < |ts|)
    && (forall j, k :: 0 <= j < k < |who| ==> who[j] != who[k])
    && forall t :: 0 <= t < |ts| ==> (t in who <==> ts[t].op.Put? == put && HasActed(ts[t].pc))
  }

  ghost predicate ValuesLogged<T>(ts: seq<Thread<T>>, who: seq<Tid>, values: seq<T>)
  {
    && |who| == |values|
    && forall k :: 0 <= k < |who| ==> who[k] < |ts| && ts[who[k]].op == Put(values[k])
  }

  /** Each logged value has its own call: the value that the call put, or that it took. */
  ghost predicate LogsOk<T>(s: State<T>)
  {
    && ListsActors(s.threads, s.putters, true) && ValuesLogged(s.threads, s.putters, s.putLog)
    && ListsActors(s.threads, s.takers, false) && |s.takers| == |s.takeLog|
  }

  /** No lost wakeup: while takers sleep, every queued element is matched by a taker that is waking up
      or by a putter about to signal; and symmetrically for putters and free slots. */
  predicate WakeupsOk<T>(s: State<T>)
  {
    && (Count(s.threads, Are(Sleeping(false))) > 0 ==>
          |s.queue| <= Count(s.threads, Are(Resuming(false))) + Count(s.threads, Are(Signalling(true))))
    && (Count(s.threads, Are(Sleeping(true))) > 0 && s.cap.Some? ==>
          s.cap.value - |s.queue| <= Count(s.threads, Are(Resuming(true))) + Count(s.threads, Are(Signalling(false))))
  }

  ghost predicate Inv<T>(s: State<T>)
  {
    LocksOk(s) && TestsOk(s) && FifoOk(s) && LogsOk(s) && WakeupsOk(s)
  }

  lemma InitInv<T>(s: State<T>)
    requires Init(s)
    ensures Inv(s)
  {
    forall c: Class | !c.Calling? ensures Count(s.threads, Are(c)) == 0 {
      NoneCounted(s.threads, Are(c));
    }
  }

  lemma StepLocks<T>(s: State<T>, l: Label)
    requires LocksOk(s) && Enabled(s, l)
    ensures LocksOk(Next(s, l))
  {
    var s' := Next(s, l);
    forall u | 0 <= u < |s'.threads|
      ensures Owns(s'.threads[u].pc) <==> s'.owner == Some(u)
      ensures Holds(s'.threads[u].pc) <==> s'.holder == Some(u)
    {
      assert u == l.t || s'.threads[u] == s.threads[u] || (l.Go? && l.wake == Some(u));
    }
  }

  lemma StepTests<T>(s: State<T>, l: Label)
    requires LocksOk(s) && TestsOk(s) && Enabled(s, l)
    ensures TestsOk(Next(s, l))
  {
    var s' := Next(s, l);
    if l.Go? && s.threads[l.t].pc.Passed? {
      assert s.owner == Some(l.t);
      forall u | 0 <= u < |s.threads| && u != l.t
        ensures s'.threads[u] == s.threads[u] && !Owns(s.threads[u].pc)
      {
      }
    }
  }

  /** A step that neither acts nor notifies changes one program counter and no queue. */
  predicate IsQuiet(pc: Pc)
  {
    !pc.Passed? && !pc.Acted?
  }

  lemma QuietStep<T>(s: State<T>, t: Tid)
    requires CanStep(s, t) && IsQuiet(s.threads[t].pc)
    ensures var s' := Step(s, t, None);
            && s'.queue == s.queue && s'.putLog == s.putLog && s'.takeLog == s.takeLog && s'.cap == s.cap
            && forall c: Class :: Count(s'.threads, Are(c))
                 == Count(s.threads, Are(c)) - One(In(c, s.threads[t])) + One(In(c, s'.threads[t]))
  {
    var pc := Step(s, t, None).threads[t].pc;
    CountsUpdate(s, t, pc);
    assert Step(s, t, None).threads == At(s, t, pc).threads;
  }

  lemma NotifyFifo<T>(s: State<T>, t: Tid, wake: Option<Tid>)
    requires t < |s.threads| && s.threads[t].pc.Acted? && WakeOk(s, t, wake)
    requires FifoOk(s)
    ensures FifoOk(Step(s, t, wake))
  {
    CountsUpdate(s, t, Leaving);
    if wake.Some? {
      CountsUpdate(At(s, t, Leaving), wake.value, Woken);
    }
  }

  lemma ActFifo<T>(s: State<T>, t: Tid)
    requires TestsOk(s) && FifoOk(s) && t < |s.threads| && s.threads[t].pc.Passed?
    ensures FifoOk(Step(s, t, None))
  {
    CountsUpdate(Act(s, t), t, Acted);
    var x := s.threads[t].op;
    if x.Take? {
      assert s.queue == [s.queue[0]] + s.queue[1..];
    }
  }

  lemma StepFifo<T>(s: State<T>, l: Label)
    requires TestsOk(s) && FifoOk(s) && Enabled(s, l)
    ensures FifoOk(Next(s, l))
  {
    match l
    case Spurious(t) => CountsUpdate(s, t, Woken);
    case Go(t, wake) =>
      if s.threads[t].pc.Passed? {
        ActFifo(s, t);
      } else if s.threads[t].pc.Acted? {
        NotifyFifo(s, t, wake);
      } else {
        QuietStep(s, t);
      }
  }

  lemma ActWakeups<T>(s: State<T>, t: Tid)
    requires TestsOk(s) && WakeupsOk(s) && t < |s.threads| && s.threads[t].pc.Passed?
    ensures WakeupsOk(Step(s, t, None))
  {
    CountsUpdate(Act(s, t), t, Acted);
    assert !Blocked(s, s.threads[t].op);
  }

  lemma QuietWakeups<T>(s: State<T>, t: Tid)
    requires CanStep(s, t) && IsQuiet(s.threads[t].pc)
    requires TestsOk(s) && WakeupsOk(s)
    ensures WakeupsOk(Step(s, t, None))
  {
    QuietStep(s, t);
  }

  /** A notification lets its thread go on, and turns a sleeper into a waking thread if there is one. */
  lemma NotifyCounts<T>(s: State<T>, t: Tid, wake: Option<Tid>)
    requires t < |s.threads| && s.threads[t].pc.Acted? && WakeOk(s, t, wake)
    ensures var s', put := Step(s, t, wake), s.threads[t].op.Put?;
            && s'.queue == s.queue && s'.cap == s.cap
            && Count(s'.threads, Are(Signalling(put))) == Count(s.threads, Are(Signalling(put))) - 1
            && Count(s'.threads, Are(Signalling(!put))) == Count(s.threads, Are(Signalling(!put)))
            && Count(s'.threads, Are(Sleeping(put))) == Count(s.threads, Are(Sleeping(put)))
            && Count(s'.threads, Are(Resuming(put))) == Count(s.threads, Are(Resuming(put)))
            && Count(s'.threads, Are(Sleeping(!put))) == Count(s.threads, Are(Sleeping(!put))) - One(wake.Some?)
            && Count(s'.threads, Are(Resuming(!put))) == Count(s.threads, Are(Resuming(!put))) + One(wake.Some?)
  {
    var s1 := At(s, t, Leaving);
    CountsUpdate(s, t, Leaving);
    if wake.Some? {
      assert s1.threads[wake.value] == s.threads[wake.value];
      CountsUpdate(s1, wake.value, Woken);
    }
  }

  lemma NotifyWakeups<T>(s: State<T>, t: Tid, wake: Option<Tid>)
    requires t < |s.threads| && s.threads[t].pc.Acted? && WakeOk(s, t, wake)
    requires TestsOk(s) && WakeupsOk(s)
    ensures WakeupsOk(Step(s, t, wake))
  {
    var put := s.threads[t].op.Put?;
    NotifyCounts(s, t, wake);
    if wake.Some? {
      assert Notifies(s, t);
    } else if Notifies(s, t) {
      forall w | 0 <= w < |s.threads| ensures !In(Sleeping(!put), s.threads[w]) {
        assert !IsTarget(s, t, w);
      }
      NoneCounted(s.threads, Are(Sleeping(!put)));
    } else {
      forall w | 0 <= w < |s.threads| ensures !In(Sleeping(true), s.threads[w]) {
      }
      NoneCounted(s.threads, Are(Sleeping(true)));
    }
  }

  lemma StepWakeups<T>(s: State<T>, l: Label)
    requires LocksOk(s) && TestsOk(s) && FifoOk(s) && WakeupsOk(s) && Enabled(s, l)
    ensures WakeupsOk(Next(s, l))
  {
    match l
    case Spurious(t) => CountsUpdate(s, t, Woken);
    case Go(t, wake) =>
      if s.threads[t].pc.Passed? {
        ActWakeups(s, t);
      } else if s.threads[t].pc.Acted? {
        NotifyWakeups(s, t, wake);
      } else {
        QuietWakeups(s, t);
      }
  }

  /** Who has acted changes only when a thread acts. */
  lemma ActorsKept<T>(ts: seq<Thread<T>>, ts': seq<Thread<T>>, who: seq<Tid>, put: bool)
    requires ListsActors(ts, who, put) && |ts'| == |ts|
    requires forall t :: 0 <= t < |ts| ==> ts'[t].op == ts[t].op && (HasActed(ts'[t].pc) <==> HasActed(ts[t].pc))
    ensures ListsActors(ts', who, put)
  {
  }

  lemma ActorAdded<T>(ts: seq<Thread<T>>, t: Tid, who: seq<Tid>, put: bool)
    requires t < |ts| && !HasActed(ts[t].pc) && ListsActors(ts, who, put)
    ensures ListsActors(ts[t := ts[t].(pc := Acted)], if ts[t].op.Put? == put then who + [t] else who, put)
  {
    assert t !in who;
  }

  lemma ValuesKept<T>(ts: seq<Thread<T>>, ts': seq<Thread<T>>, who: seq<Tid>, values: seq<T>)
    requires ValuesLogged(ts, who, values) && |ts'| == |ts|
    requires forall t :: 0 <= t < |ts| ==> ts'[t].op == ts[t].op
    ensures ValuesLogged(ts', who, values)
  {
  }

  lemma ValueAdded<T>(ts: seq<Thread<T>>, t: Tid, who: seq<Tid>, values: seq<T>)
    requires t < |ts| && ts[t].op.Put? && ValuesLogged(ts, who, values)
    ensures ValuesLogged(ts, who + [t], values + [ts[t].op.value])
  {
  }

  lemma QuietLogs<T>(s: State<T>, l: Label)
    requires LogsOk(s) && Enabled(s, l) && (l.Go? ==> !s.threads[l.t].pc.Passed?)
    ensures LogsOk(Next(s, l))
  {
    var ts, ts' := s.threads, Next(s, l).threads;
    forall t | 0 <= t < |ts| ensures ts'[t].op == ts[t].op && (HasActed(ts'[t].pc) <==> HasActed(ts[t].pc)) {
    }
    ActorsKept(ts, ts', s.putters, true);
    ActorsKept(ts, ts', s.takers, false);
    ValuesKept(ts, ts', s.putters, s.putLog);
  }

  lemma ActLogs<T>(s: State<T>, t: Tid)
    requires TestsOk(s) && LogsOk(s) && t < |s.threads| && s.threads[t].pc.Passed?
    ensures LogsOk(Step(s, t, None))
  {
    var ts, ts' := s.threads, Step(s, t, None).threads;
    assert ts' == ts[t := ts[t].(pc := Acted)] && !Blocked(s, ts[t].op);
    ActorAdded(ts, t, s.putters, true);
    ActorAdded(ts, t, s.takers, false);
    ValuesKept(ts, ts', s.putters, s.putLog);
    if ts[t].op.Put? {
      ValueAdded(ts', t, s.putters, s.putLog);
    }
  }

  lemma StepLogs<T>(s: State<T>, l: Label)
    requires TestsOk(s) && LogsOk(s) && Enabled(s, l)
    ensures LogsOk(Next(s, l))
  {
    if l.Go? && s.threads[l.t].pc.Passed? {
      ActLogs(s, l.t);
    } else {
      QuietLogs(s, l);
    }
  }

  lemma StepInv<T>(s: State<T>, l: Label)
    requires Inv(s) && Enabled(s, l)
    ensures Inv(Next(s, l))
  {
    StepLocks(s, l);
    StepTests(s, l);
    StepFifo(s, l);
    StepLogs(s, l);
    StepWakeups(s, l);
  }

  /** All the invariants hold in every state of every run, spurious wakeups and barging included. */
  lemma {:induction false} RunInv<T>(s: State<T>, ls: seq<Label>)
    requires Inv(s) && IsRun(s, ls)
    ensures Inv(Final(s, ls))
    decreases |ls|
  {
    if ls != [] {
      StepInv(s, ls[0]);
      RunInv(Next(s, ls[0]), ls[1..]);
    }
  }
}
