/** MutexLock, Condition and the two blocking queues as objects. A thread's call is cut where it blocks:
    each method below runs from there to the next point where the thread blocks or returns. */
module BlockingQueues {
  import opened Histories
  import opened Options
  import opened Monitor

  class MutexLock {
    var owner: Option<Tid>   // of the pthread mutex
    var holder: Option<Tid>  // holder_; None for 0

    constructor ()
      ensures owner.None? && holder.None?
    {
      owner, holder := None, None;
    }

    predicate IsLockedByThisThread(self: Tid)
      reads this
    {
      holder == Some(self)
    }

    method Lock(self: Tid)
      requires owner.None?
      modifies this
      ensures owner == Some(self) && IsLockedByThisThread(self)
    {
      owner := Some(self);
      AssignHolder(self);
    }

    method Unlock(self: Tid)
      requires owner == Some(self)
      modifies this
      ensures owner.None? && holder.None?
    {
      UnassignHolder();
      owner := None;
    }

    method AssignHolder(self: Tid)
      modifies this`holder
      ensures holder == Some(self)
    {
      holder := Some(self);
    }

    method UnassignHolder()
      modifies this`holder
      ensures holder.None?
    {
      holder := None;
    }
  }

  /** The threads of `s` asleep on the condition that putters (takers) wait for. */
  ghost function SleepersOf<T>(s: State<T>, put: bool): set<Tid>
  {
    set t | 0 <= t < |s.threads| && s.threads[t].pc.Asleep? && s.threads[t].op.Put? == put
  }

  /** The state after notifyAll on the condition that putters (takers) wait for. */
  function WakeAll<T>(s: State<T>, put: bool): (s': State<T>)
    ensures |s'.threads| == |s.threads|
  {
    s.(threads := seq(|s.threads|, t requires 0 <= t < |s.threads| =>
      if s.threads[t].pc.Asleep? && s.threads[t].op.Put? == put then s.threads[t].(pc := Woken) else s.threads[t]))
  }

  lemma SleepersAt<T>(s: State<T>, t: Tid, pc: Pc)
    requires t < |s.threads|
    ensures forall put :: SleepersOf(At(s, t, pc), put)
              == if s.threads[t].op.Put? == put && pc.Asleep? then SleepersOf(s, put) + {t} else SleepersOf(s, put) - {t}
  {
  }

  lemma {:induction false} WakeTheRest<T>(s: State<T>, put: bool, n: nat) returns (ls: seq<Label>)
    requires n <= |s.threads|
    requires forall t :: 0 <= t < n ==> t !in SleepersOf(s, put)
    ensures IsRun(s, ls) && Final(s, ls) == WakeAll(s, put)
    ensures forall i :: 0 <= i < |ls| ==> ls[i].Spurious?
    decreases |s.threads| - n
  {
    if n == |s.threads| {
      ls := [];
      assert forall t :: 0 <= t < n ==> WakeAll(s, put).threads[t] == s.threads[t] by {
        assert forall t :: 0 <= t < n && s.threads[t].pc.Asleep? && s.threads[t].op.Put? == put ==> t in SleepersOf(s, put);
      }
      assert WakeAll(s, put).threads == s.threads;
    } else if s.threads[n].pc.Asleep? && s.threads[n].op.Put? == put {
      var s1 := Next(s, Spurious(n));
      SleepersAt(s, n, Woken);
      ls := WakeTheRest(s1, put, n + 1);
      assert WakeAll(s1, put).threads == WakeAll(s, put).threads;
      ls := [Spurious(n)] + ls;
    } else {
      ls := WakeTheRest(s, put, n + 1);
    }
  }

  lemma SleepersAfterAll<T>(s: State<T>, put: bool)
    ensures SleepersOf(WakeAll(s, put), put) == {}
    ensures SleepersOf(WakeAll(s, put), !put) == SleepersOf(s, !put)
  {
    var s' := WakeAll(s, put);
    forall t | 0 <= t < |s.threads|
      ensures s'.threads[t].op == s.threads[t].op
      ensures s'.threads[t].pc.Asleep? <==> s.threads[t].pc.Asleep? && s.threads[t].op.Put? != put
    {
    }
  }

  /** notifyAll amounts to waking its sleepers one by one, so that it too keeps every invariant: it empties
      the condition, touches no other sleeper, and can be used in place of a notify. */
  lemma BroadcastIsWakeups<T>(s: State<T>, put: bool) returns (ls: seq<Label>)
    ensures IsRun(s, ls) && Final(s, ls) == WakeAll(s, put)
    ensures SleepersOf(WakeAll(s, put), put) == {} && SleepersOf(WakeAll(s, put), !put) == SleepersOf(s, !put)
    ensures Inv(s) ==> Inv(WakeAll(s, put))
  {
    ls := WakeTheRest(s, put, 0);
    SleepersAfterAll(s, put);
    if Inv(s) {
      RunInv(s, ls);
    }
  }

  class Condition {
    const mutex: MutexLock
    var sleepers: set<Tid>

    constructor (mutex: MutexLock)
      ensures this.mutex == mutex && sleepers == {}
    {
      this.mutex := mutex;
      sleepers := {};
    }

    /** The first half of wait: holder_ is cleared, then the mutex is released and the thread sleeps. */
    method BeginWait(self: Tid)
      requires mutex.owner == Some(self)
      modifies this, mutex
      ensures sleepers == old(sleepers) + {self}
      ensures mutex.owner.None? && mutex.holder.None?
    {
      mutex.UnassignHolder();
      mutex.owner := None;
      sleepers := sleepers + {self};
    }

    /** The second half, once woken: the mutex is taken again, then holder_ is set. */
    method EndWait(self: Tid)
      requires mutex.owner.None? && self !in sleepers
      modifies mutex
      ensures mutex.owner == Some(self) && mutex.IsLockedByThisThread(self)
    {
      mutex.owner := Some(self);
      mutex.AssignHolder(self);
    }

    method Notify() returns (wake: Option<Tid>)
      modifies this
      ensures wake.None? <==> old(sleepers) == {}
      ensures wake.Some? ==> wake.value in old(sleepers) && sleepers == old(sleepers) - {wake.value}
      ensures wake.None? ==> sleepers == {}
    {
      if sleepers == {} {
        return None;
      }
      var w :| w in sleepers;
      sleepers := sleepers - {w};
      return Some(w);
    }

    /** Wakes every sleeper: in the step system, a run of single wakeups. */
    method NotifyAll<T>(ghost s: State<T>, ghost put: bool) returns (ghost ls: seq<Label>)
      requires sleepers == SleepersOf(s, put)
      modifies this
      ensures IsRun(s, ls) && Final(s, ls) == WakeAll(s, put)
      ensures sleepers == SleepersOf(WakeAll(s, put), put)
    {
      ls := BroadcastIsWakeups(s, put);
      sleepers := {};
    }
  }

  ghost predicate SameLogs<T>(s: State<T>, s': State<T>)
  {
    s'.putLog == s.putLog && s'.putters == s.putters && s'.takeLog == s.takeLog && s'.takers == s.takers
  }

  /** Only thread `t` has run. */
  predicate OnlyBy(ls: seq<Label>, t: Tid)
  {
    forall i :: 0 <= i < |ls| ==> ls[i].Go? && ls[i].t == t
  }

  /** Thread `t` alone takes the system from `s` to `s'` by the steps `ls`. */
  ghost predicate Ran<T>(s: State<T>, ls: seq<Label>, t: Tid, s': State<T>)
  {
    IsRun(s, ls) && OnlyBy(ls, t) && Final(s, ls) == s'
  }

  lemma {:induction false} RanThen<T>(s: State<T>, ls: seq<Label>, t: Tid, s1: State<T>, ls1: seq<Label>, s2: State<T>)
    requires Ran(s, ls, t, s1) && Ran(s1, ls1, t, s2)
    ensures Ran(s, ls + ls1, t, s2)
    decreases |ls|
  {
    if ls == [] {
      assert ls + ls1 == ls1;
    } else {
      assert (ls + ls1)[0] == ls[0] && (ls + ls1)[1..] == ls[1..] + ls1;
      RanThen(Next(s, ls[0]), ls[1..], t, s1, ls1, s2);
    }
  }

  lemma RanOne<T>(s: State<T>, t: Tid, wake: Option<Tid>)
    requires CanStep(s, t) && WakeOk(s, t, wake)
    ensures Ran(s, [Go(t, wake)], t, Step(s, t, wake))
  {
    assert [Go(t, wake)][1..] == [];
  }

  lemma RanTwo<T>(s: State<T>, t: Tid)
    requires CanStep(s, t) && WakeOk(s, t, None)
    requires CanStep(Step(s, t, None), t) && WakeOk(Step(s, t, None), t, None)
    ensures Ran(s, [Go(t, None)] + [Go(t, None)], t, Step(Step(s, t, None), t, None))
  {
    var s1 := Step(s, t, None);
    RanOne(s, t, None);
    RanOne(s1, t, None);
    RanThen(s, [Go(t, None)], t, s1, [Go(t, None)], Step(s1, t, None));
  }

  /** From the call, or from the end of the sleep, to the test of the loop. */
  lemma EnterSteps<T>(s: State<T>, t: Tid) returns (ls: seq<Label>, s': State<T>)
    requires t < |s.threads| && s.owner.None? && (s.threads[t].pc.Fresh? || s.threads[t].pc.Woken?)
    ensures Ran(s, ls, t, s')
    ensures s' == At(s.(owner := Some(t), holder := Some(t)), t, Testing(s.threads[t].pc.Woken?))
  {
    RanTwo(s, t);
    ls, s' := [Go(t, None)] + [Go(t, None)], Step(Step(s, t, None), t, None);
    assert s'.threads == s.threads[t := s'.threads[t]];
  }

  /** From the test to sleep. */
  lemma SleepSteps<T>(s: State<T>, t: Tid) returns (ls: seq<Label>, s': State<T>)
    requires t < |s.threads| && s.threads[t].pc.Testing? && Blocked(s, s.threads[t].op)
    ensures Ran(s, ls, t, s')
    ensures s' == At(s.(owner := None, holder := None), t, Asleep)
  {
    RanTwo(s, t);
    var s2 := Step(Step(s, t, None), t, None);
    assert s2.threads == s.threads[t := s.threads[t].(pc := Parting)];
    RanOne(s2, t, None);
    s' := Step(s2, t, None);
    RanThen(s, [Go(t, None)] + [Go(t, None)], t, s2, [Go(t, None)], s');
    ls := [Go(t, None)] + [Go(t, None)] + [Go(t, None)];
    assert s'.threads == s.threads[t := s'.threads[t]];
  }

  /** From the test through the queue operation. */
  lemma ActSteps<T>(s: State<T>, t: Tid) returns (ls: seq<Label>, s': State<T>)
    requires t < |s.threads| && s.threads[t].pc.Testing? && !Blocked(s, s.threads[t].op)
    ensures Ran(s, ls, t, s') && s' == At(Act(s, t), t, Acted)
  {
    RanTwo(s, t);
    ls, s' := [Go(t, None)] + [Go(t, None)], Step(Step(s, t, None), t, None);
    assert s'.threads == s.threads[t := s'.threads[t]];
  }

  /** From the notification to the return. */
  lemma LeaveSteps<T>(s: State<T>, t: Tid, wake: Option<Tid>) returns (ls: seq<Label>, s': State<T>)
    requires t < |s.threads| && s.threads[t].pc.Acted? && WakeOk(s, t, wake)
    ensures Ran(s, ls, t, s')
    ensures var done := At(s.(owner := None, holder := None), t, Done);
            s' == if wake.Some? then At(done, wake.value, Woken) else done
  {
    RanOne(s, t, wake);
    var s1 := Step(s, t, wake);
    RanTwo(s1, t);
    s' := Step(Step(s1, t, None), t, None);
    RanThen(s, [Go(t, wake)], t, s1, [Go(t, None)] + [Go(t, None)], s');
    ls := [Go(t, wake)] + ([Go(t, None)] + [Go(t, None)]);
    var done := At(s.(owner := None, holder := None), t, Done);
    assert s'.threads == (if wake.Some? then At(done, wake.value, Woken) else done).threads;
  }

  /** A thread sleeps on one condition only. */
  lemma OtherSleepers<T>(s: State<T>, t: Tid, wake: Option<Tid>)
    requires t < |s.threads| && s.threads[t].pc.Acted? && WakeOk(s, t, wake)
    ensures wake.Some? ==> wake.value !in SleepersOf(s, s.threads[t].op.Put?)
  {
  }

  /** Choosing a sleeper from the condition's set is choosing a target of the signal. */
  lemma SignalIsOk<T>(s: State<T>, t: Tid, wake: Option<Tid>)
    requires t < |s.threads| && s.threads[t].pc.Acted?
    requires match wake
             case Some(w) => Notifies(s, t) && w in SleepersOf(s, !s.threads[t].op.Put?)
             case None => !Notifies(s, t) || SleepersOf(s, !s.threads[t].op.Put?) == {}
    ensures WakeOk(s, t, wake)
  {
    if wake.None? {
      forall w | 0 <= w < |s.threads| ensures !IsTarget(s, t, w) {
        assert w in SleepersOf(s, !s.threads[t].op.Put?) <==>
                 s.threads[w].pc.Asleep? && s.threads[w].op.Put? != s.threads[t].op.Put?;
      }
    }
  }

  lemma Returned<T>(s: State<T>, t: Tid, wake: Option<Tid>)
    requires t < |s.threads| && s.threads[t].pc.Acted? && WakeOk(s, t, wake)
    ensures var done := At(s.(owner := None, holder := None), t, Done);
            var s' := if wake.Some? then At(done, wake.value, Woken) else done;
            forall put :: SleepersOf(s', put) == SleepersOf(s, put) - if wake.Some? then {wake.value} else {}
  {
    var s0 := s.(owner := None, holder := None);
    var done := At(s0, t, Done);
    SleepersAt(s0, t, Done);
    if wake.Some? {
      SleepersAt(done, wake.value, Woken);
    }
  }

  /** `capacity` is None for BlockingQueue, whose deque grows without bound. */
  class BlockingQueue<T> {
    const mutex: MutexLock
    const notEmpty: Condition
    const notFull: Condition
    const capacity: Option<nat>
    var queue: seq<T>

    ghost predicate Valid()
      reads this
    {
      notEmpty != notFull && notEmpty.mutex == mutex && notFull.mutex == mutex
    }

    constructor (capacity: Option<nat>)
      ensures Valid() && queue == [] && this.capacity == capacity
      ensures mutex.owner.None? && mutex.holder.None? && notEmpty.sleepers == {} && notFull.sleepers == {}
      ensures fresh(mutex) && fresh(notEmpty) && fresh(notFull)
    {
      var m := new MutexLock();
      mutex := m;
      notEmpty := new Condition(m);
      notFull := new Condition(m);
      this.capacity := capacity;
      queue := [];
    }

    /** The objects are in the state that the step system calls `s`. */
    ghost predicate Matches(s: State<T>)
      reads this, mutex, notEmpty, notFull
    {
      && capacity == s.cap && queue == s.queue
      && mutex.owner == s.owner && mutex.holder == s.holder
      && notFull.sleepers == SleepersOf(s, true)
      && notEmpty.sleepers == SleepersOf(s, false)
    }

    /** The lock of the guard object, or the end of the wait. */
    method Enter(self: Tid, resuming: bool, cond: Condition, ghost s: State<T>)
      returns (ghost ls: seq<Label>, ghost s1: State<T>)
      requires Valid() && Matches(s) && mutex.owner.None? && self < |s.threads|
      requires s.threads[self].pc == if resuming then Woken else Fresh
      requires cond == if s.threads[self].op.Put? then notFull else notEmpty
      modifies mutex
      ensures Ran(s, ls, self, s1) && Matches(s1)
      ensures s1 == At(s.(owner := Some(self), holder := Some(self)), self, Testing(resuming))
    {
      ls, s1 := EnterSteps(s, self);
      SleepersAt(s.(owner := Some(self), holder := Some(self)), self, Testing(resuming));
      if resuming {
        cond.EndWait(self);
      } else {
        mutex.Lock(self);
      }
    }

    method Sleep(self: Tid, cond: Condition, ghost s1: State<T>)
      returns (ghost ls: seq<Label>, ghost s': State<T>)
      requires Valid() && Matches(s1) && self < |s1.threads| && mutex.owner == Some(self)
      requires s1.threads[self].pc.Testing? && Blocked(s1, s1.threads[self].op)
      requires cond == if s1.threads[self].op.Put? then notFull else notEmpty
      modifies mutex, cond
      ensures Ran(s1, ls, self, s') && Matches(s')
      ensures self < |s'.threads| && s'.threads[self].pc.Asleep?
    {
      ls, s' := SleepSteps(s1, self);
      SleepersAt(s1.(owner := None, holder := None), self, Asleep);
      cond.BeginWait(self);
    }

    /** The notification has been sent to `wake`; the guard object unlocks. */
    method Leave(self: Tid, wake: Option<Tid>, ghost s2: State<T>)
      returns (ghost ls: seq<Label>, ghost s': State<T>)
      requires Valid() && self < |s2.threads| && s2.threads[self].pc.Acted? && WakeOk(s2, self, wake)
      requires mutex.owner == Some(self) && capacity == s2.cap && queue == s2.queue
      requires notFull.sleepers == SleepersOf(s2, true) - if wake.Some? then {wake.value} else {}
      requires notEmpty.sleepers == SleepersOf(s2, false) - if wake.Some? then {wake.value} else {}
      modifies mutex
      ensures Ran(s2, ls, self, s') && Matches(s') && SameLogs(s2, s')
      ensures self < |s'.threads| && s'.threads[self].pc.Done?
    {
      ls, s' := LeaveSteps(s2, self, wake);
      Returned(s2, self, wake);
      mutex.Unlock(self);
    }

    /** Notify, if the operation does, and return. */
    method Finish(self: Tid, signals: bool, cond: Condition, ghost s2: State<T>)
      returns (ghost ls: seq<Label>, ghost s': State<T>)
      requires Valid() && Matches(s2) && self < |s2.threads| && mutex.owner == Some(self)
      requires s2.threads[self].pc.Acted? && (signals <==> Notifies(s2, self))
      requires cond == if s2.threads[self].op.Put? then notEmpty else notFull
      modifies mutex, cond
      ensures Ran(s2, ls, self, s') && Matches(s') && SameLogs(s2, s')
      ensures self < |s'.threads| && s'.threads[self].pc.Done?
    {
      var wake := None;
      if signals {
        wake := cond.Notify();
      }
      SignalIsOk(s2, self, wake);
      OtherSleepers(s2, self, wake);
      ls, s' := Leave(self, wake, s2);
    }

    /** put, up to where it sleeps or returns: `ls` is what that is in the step system. */
    method Put(self: Tid, x: T, resuming: bool, ghost s: State<T>)
      returns (done: bool, ghost ls: seq<Label>, ghost s': State<T>)
      requires Valid() && Matches(s) && Inv(s) && mutex.owner.None? && self < |s.threads|
      requires s.threads[self] == Thread(Monitor.Put(x), if resuming then Woken else Fresh)
      modifies this, mutex, notEmpty, notFull
      ensures Ran(s, ls, self, s') && Matches(s')
      ensures self < |s'.threads| && s'.threads[self].pc == if done then Done else Asleep
      ensures done <==> !Full(s)
      ensures done ==> s'.putLog == s.putLog + [x] && s'.putters == s.putters + [self]
      ensures queue == if done then old(queue) + [x] else old(queue)
    {
      ghost var s1, s2, ls1, ls2;
      ls, s1 := Enter(self, resuming, notFull, s);
      if capacity.Some? && |queue| == capacity.value {
        ls1, s' := Sleep(self, notFull, s1);
        RanThen(s, ls, self, s1, ls1, s');
        return false, ls + ls1, s';
      }
      ls1, s2 := ActSteps(s1, self);
      SleepersAt(Act(s1, self), self, Acted);
      queue := queue + [x];
      ls2, s' := Finish(self, true, notEmpty, s2);
      RanThen(s, ls, self, s1, ls1, s2);
      RanThen(s, ls + ls1, self, s2, ls2, s');
      return true, ls + ls1 + ls2, s';
    }

    /** take, up to where it sleeps or returns. */
    method Take(self: Tid, resuming: bool, ghost s: State<T>)
      returns (front: Option<T>, ghost ls: seq<Label>, ghost s': State<T>)
      requires Valid() && Matches(s) && Inv(s) && mutex.owner.None? && self < |s.threads|
      requires s.threads[self] == Thread(Monitor.Take, if resuming then Woken else Fresh)
      modifies this, mutex, notEmpty, notFull
      ensures Ran(s, ls, self, s') && Matches(s')
      ensures self < |s'.threads| && s'.threads[self].pc == if front.Some? then Done else Asleep
      ensures front.Some? <==> old(queue) != []
      ensures front.Some? ==> old(queue) == [front.value] + queue
      ensures front.Some? ==> s'.takeLog == s.takeLog + [front.value] && s'.takers == s.takers + [self]
      ensures front.None? ==> queue == old(queue)
    {
      ghost var s1, s2, ls1, ls2;
      ls, s1 := Enter(self, resuming, notEmpty, s);
      if |queue| == 0 {
        ls1, s' := Sleep(self, notEmpty, s1);
        RanThen(s, ls, self, s1, ls1, s');
        return None, ls + ls1, s';
      }
      ls1, s2 := ActSteps(s1, self);
      SleepersAt(Act(s1, self), self, Acted);
      front := Some(queue[0]);
      queue := queue[1..];
      ls2, s' := Finish(self, capacity.Some?, notFull, s2);
      RanThen(s, ls, self, s1, ls1, s2);
      RanThen(s, ls + ls1, self, s2, ls2, s');
      ls := ls + ls1 + ls2;
    }
  }
}
