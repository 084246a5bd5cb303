/** Runs of the request protocol in which one thread takes every step. */
module EngineSteps {
  import opened Histories
  import opened EngineSpec
  import opened EngineProtocol

  /** Thread `t` alone takes the system from `s` to `s'` by the steps `ts`. */
  ghost predicate Ran(c: Config, s: State, ts: seq<Tid>, t: Tid, s': State)
  {
    IsRun(c, s, ts) && (forall i :: 0 <= i < |ts| ==> ts[i] == t) && Final(c, s, ts) == s'
  }

  ghost predicate Reaches(c: Config, s: State, t: Tid, s': State)
  {
    exists ts :: Ran(c, s, ts, t, s')
  }

  lemma {:induction false} RanThen(c: Config, s: State, ts: seq<Tid>, t: Tid, s1: State, ts1: seq<Tid>, s2: State)
    requires Ran(c, s, ts, t, s1) && Ran(c, s1, ts1, t, s2)
    ensures Ran(c, s, ts + ts1, t, s2)
    decreases |ts|
  {
    if ts == [] {
      assert ts + ts1 == ts1;
    } else {
      assert (ts + ts1)[0] == ts[0] && (ts + ts1)[1..] == ts[1..] + ts1;
      RanThen(c, Step(c, s, ts[0]), ts[1..], t, s1, ts1, s2);
    }
  }

  lemma RanOne(c: Config, s: State, t: Tid)
    requires CanStep(false, s, t)
    ensures Ran(c, s, [t], t, Step(c, s, t))
  {
    var ts := [t];
    assert ts[0] == t && ts[1..] == [];
    assert IsRun(c, Step(c, s, t), ts[1..]) && Final(c, Step(c, s, t), ts[1..]) == Step(c, s, t);
  }

  lemma ReachesStep(c: Config, s0: State, s: State, t: Tid)
    requires Reaches(c, s0, t, s) && CanStep(false, s, t)
    ensures Reaches(c, s0, t, Step(c, s, t))
  {
    var ts :| Ran(c, s0, ts, t, s);
    RanOne(c, s, t);
    RanThen(c, s0, ts, t, s, [t], Step(c, s, t));
  }

  lemma ReachesSelf(c: Config, s: State, t: Tid)
    ensures Reaches(c, s, t, s)
  {
    assert Ran(c, s, [], t, s);
  }

  /** popEngineIndex: acquire, lock, take the top, unlock. */
  lemma PopReaches(c: Config, s0: State, s: State, t: Tid) returns (s': State)
    requires Reaches(c, s0, t, s) && t < |s.threads| && s.threads[t].pc == Start
    requires s.sem > 0 && s.mutex.None? && s.pool != []
    ensures Reaches(c, s0, t, s')
    ensures s' == At(s.(sem := s.sem - 1, pool := s.pool[..|s.pool| - 1]), t, Ready(s.pool[|s.pool| - 1]))
  {
    ReachesStep(c, s0, s, t);
    var s1 := Step(c, s, t);
    ReachesStep(c, s0, s1, t);
    var s2 := Step(c, s1, t);
    ReachesStep(c, s0, s2, t);
    var s3 := Step(c, s2, t);
    ReachesStep(c, s0, s3, t);
    s' := Step(c, s3, t);
    assert s'.threads == s.threads[t := s.threads[t].(pc := Ready(s.pool[|s.pool| - 1]))];
  }

  /** pushEngineIndex: lock, push, unlock, release. */
  lemma PushReaches(c: Config, s0: State, s: State, t: Tid) returns (s': State)
    requires Reaches(c, s0, t, s) && t < |s.threads| && s.threads[t].pc.Giving? && s.mutex.None?
    ensures Reaches(c, s0, t, s')
    ensures var e, ret := s.threads[t].pc.e, s.threads[t].pc.ret;
            s' == At(s.(sem := s.sem + 1, pool := s.pool + [e]), t,
                     if s.threads[t].req.AddUser? && ret == 0 then Storing else Done(ret))
  {
    ReachesStep(c, s0, s, t);
    var s1 := Step(c, s, t);
    ReachesStep(c, s0, s1, t);
    var s2 := Step(c, s1, t);
    ReachesStep(c, s0, s2, t);
    var s3 := Step(c, s2, t);
    ReachesStep(c, s0, s3, t);
    s' := Step(c, s3, t);
    assert s'.threads == s.threads[t := s'.threads[t]];
  }

  /** addFeature_Guest: lock for writing, append, unlock. */
  lemma AppendReaches(c: Config, s0: State, s: State, t: Tid) returns (s': State)
    requires Reaches(c, s0, t, s) && t < |s.threads| && s.threads[t].pc.WantWrite? && s.threads[t].req.AddGuest?
    requires s.guestWriter.None? && s.guestReaders == {}
    ensures Reaches(c, s0, t, s')
    ensures var r := s.threads[t].req;
            s' == At(Effect(s, t, s.db.(guests := s.db.guests + [Entry(r.model, r.id)])), t, Giving(s.threads[t].pc.e, 0))
  {
    ReachesStep(c, s0, s, t);
    var s1 := Step(c, s, t);
    ReachesStep(c, s0, s1, t);
    var s2 := Step(c, s1, t);
    ReachesStep(c, s0, s2, t);
    s' := Step(c, s2, t);
    assert s'.threads == s.threads[t := s'.threads[t]];
  }

  /** The image is loaded, or not, and the feature extracted, or not. */
  lemma LoadReaches(c: Config, s0: State, s: State, t: Tid, e: int) returns (s': State)
    requires Reaches(c, s0, t, s) && t < |s.threads| && s.threads[t].pc == Ready(e)
    ensures Reaches(c, s0, t, s') && s' == Loaded(s, t, e)
  {
    ReachesStep(c, s0, s, t);
    s' := Step(c, s, t);
  }

  /** getCache: the scan begins. */
  lemma UsersLocked(c: Config, s0: State, s: State, t: Tid, e: int) returns (s': State)
    requires Reaches(c, s0, t, s) && t < |s.threads| && s.threads[t].pc == WantUsers(e) && |s.userReaders| == 0
    ensures Reaches(c, s0, t, s') && s' == At(s.(userReaders := {t}), t, UserScan(e, 0))
  {
    ReachesStep(c, s0, s, t);
    s' := Step(c, s, t);
  }

  /** One comparison of the user scan, or its end. */
  lemma UserTurn(c: Config, s0: State, s: State, t: Tid, e: int, i: nat) returns (s': State)
    requires t < |s.threads| && s.threads[t].req.Compare? && Reaches(c, s0, t, At(s, t, UserScan(e, i)))
    ensures Reaches(c, s0, t, s')
    ensures var r := s.threads[t].req;
            s' == if i >= |c.users| then At(s, t, UserDone(e, false))
                  else if c.Matches(c.users[i].model, r.probe)
                  then At(Effect(s, t, s.db.(log := s.db.log + [Record(c.users[i].id, USER, r.ip)])), t, UserDone(e, true))
                  else At(s, t, UserScan(e, i + 1))
  {
    var s1 := At(s, t, UserScan(e, i));
    ReachesStep(c, s0, s1, t);
    s' := Step(c, s1, t);
    assert s'.threads == s.threads[t := s'.threads[t]];
  }

  /** freeUserLock. */
  lemma UsersUnlocked(c: Config, s0: State, s: State, t: Tid, e: int, hit: bool) returns (s': State)
    requires t < |s.threads| && Reaches(c, s0, t, At(s, t, UserDone(e, hit)))
    ensures Reaches(c, s0, t, s')
    ensures s' == At(s.(userReaders := s.userReaders - {t}), t, if hit then Giving(e, 0) else WantGuests(e))
  {
    var s1 := At(s, t, UserDone(e, hit));
    ReachesStep(c, s0, s1, t);
    s' := Step(c, s1, t);
    assert s'.threads == s.threads[t := s'.threads[t]];
  }

  function Remembering(s: State, t: Tid): (s': State)
    requires t < |s.threads|
    ensures |s'.threads| == |s.threads| && s'.threads[t].req == s.threads[t].req
  {
    s.(guestReaders := {t}, threads := s.threads[t := s.threads[t].(snap := s.db.guests)])
  }

  /** getCache_guest: the list is locked and remembered, and the scan begins. */
  lemma GuestsLocked(c: Config, s0: State, s: State, t: Tid, e: int) returns (s': State)
    requires Reaches(c, s0, t, s) && t < |s.threads| && s.threads[t].pc == WantGuests(e)
    requires |s.guestReaders| == 0 && s.guestWriter.None?
    ensures Reaches(c, s0, t, s')
    ensures s' == At(Remembering(s, t), t, GuestScan(e, 0))
  {
    ReachesStep(c, s0, s, t);
    s' := Step(c, s, t);
  }

  /** One comparison of the guest scan, or its end. */
  lemma GuestTurn(c: Config, s0: State, s: State, t: Tid, e: int, i: nat) returns (s': State)
    requires t < |s.threads| && s.threads[t].req.Compare? && Reaches(c, s0, t, At(s, t, GuestScan(e, i)))
    ensures Reaches(c, s0, t, s')
    ensures var r, guests := s.threads[t].req, s.db.guests;
            s' == if i >= |guests| then At(Effect(s, t, s.db), t, GuestDone(e, 1))
                  else if c.Matches(guests[i].model, r.probe)
                  then At(Effect(s, t, s.db.(log := s.db.log + [Record(guests[i].id, GUEST, r.ip)])), t, GuestDone(e, 0))
                  else At(s, t, GuestScan(e, i + 1))
  {
    var s1 := At(s, t, GuestScan(e, i));
    ReachesStep(c, s0, s1, t);
    s' := Step(c, s1, t);
    assert s'.threads == s.threads[t := s'.threads[t]];
  }

  /** freeGuestLock. */
  lemma GuestsUnlocked(c: Config, s0: State, s: State, t: Tid, e: int, ret: int) returns (s': State)
    requires t < |s.threads| && Reaches(c, s0, t, At(s, t, GuestDone(e, ret)))
    ensures Reaches(c, s0, t, s')
    ensures s' == At(s.(guestReaders := s.guestReaders - {t}), t, Giving(e, ret))
  {
    var s1 := At(s, t, GuestDone(e, ret));
    ReachesStep(c, s0, s1, t);
    s' := Step(c, s1, t);
    assert s'.threads == s.threads[t := s'.threads[t]];
  }

  /** addFeature_User, after the engine has been given back. */
  lemma StoreReaches(c: Config, s0: State, s: State, t: Tid) returns (s': State)
    requires Reaches(c, s0, t, s) && t < |s.threads| && s.threads[t].pc.Storing? && s.threads[t].req.AddUser?
    ensures Reaches(c, s0, t, s')
    ensures var r := s.threads[t].req;
            s' == At(Effect(s, t, s.db.(updates := s.db.updates + [Entry(r.model, r.id)])), t, Done(0))
  {
    ReachesStep(c, s0, s, t);
    s' := Step(c, s, t);
  }
}
