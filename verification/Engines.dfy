/** ARCFaceEngines and ARCFaceFeatureDB as objects. A request that nobody disturbs runs from start to end;
    its method is proved to have the effect of the specification and to take exactly the steps that the
    step system gives to its thread. */
module Engines {
  import opened Histories
  import opened Options
  import opened EngineSpec
  import opened EngineProtocol
  import opened EngineSteps
  import opened ReadWriteLocks

  /** The mutex of the engine pool. */
  class PoolMutex {
    var owner: Option<Tid>

    constructor ()
      ensures owner.None?
    {
      owner := None;
    }

    method Lock(self: Tid)
      requires owner.None?
      modifies this
      ensures owner == Some(self)
    {
      owner := Some(self);
    }

    method Unlock(self: Tid)
      requires owner == Some(self)
      modifies this
      ensures owner.None?
    {
      owner := None;
    }
  }

  class FeatureDb {
    const cache: seq<Entry>
    var cacheGuest: seq<Entry>
    var addTimes: seq<nat>  // of the guests; nothing reads them
    var log: seq<Record>
    var updates: seq<Entry>
    const lockUser: ReadWriteLock
    const lockGuest: ReadWriteLock

    ghost predicate Valid()
      reads this, lockUser, lockGuest
    {
      lockUser != lockGuest && lockUser.IsFree() && lockGuest.IsFree() && |addTimes| == |cacheGuest|
    }

    ghost function Contents(): Db
      reads this
    {
      Db(cacheGuest, log, updates)
    }

    constructor (users: seq<Entry>)
      ensures Valid() && cache == users && Contents() == Db([], [], [])
      ensures fresh(lockUser) && fresh(lockGuest)
    {
      cache := users;
      cacheGuest, addTimes, log, updates := [], [], [], [];
      lockUser := new ReadWriteLock();
      lockGuest := new ReadWriteLock();
    }

    method AddFeatureUser(model: Model, id: int)
      modifies this`updates
      ensures updates == old(updates) + [Entry(model, id)]
    {
      updates := updates + [Entry(model, id)];
    }

    method AddFeatureGuest(model: Model, id: int, now: nat)
      requires Valid()
      modifies this`cacheGuest, this`addTimes, lockGuest
      ensures Valid() && cacheGuest == old(cacheGuest) + [Entry(model, id)] && addTimes == old(addTimes) + [now]
    {
      lockGuest.LockForWrite();
      addTimes := addTimes + [now];
      cacheGuest := cacheGuest + [Entry(model, id)];
      lockGuest.Unlock();
    }

    method GetCache() returns (users: seq<Entry>)
      requires !lockUser.writer
      modifies lockUser
      ensures users == cache && lockUser.readers == old(lockUser.readers) + 1 && !lockUser.writer
    {
      lockUser.LockForRead();
      users := cache;
    }

    method GetCacheGuest() returns (guests: seq<Entry>)
      requires !lockGuest.writer
      modifies lockGuest
      ensures guests == cacheGuest && lockGuest.readers == old(lockGuest.readers) + 1 && !lockGuest.writer
    {
      lockGuest.LockForRead();
      guests := cacheGuest;
    }

    method QueryAddOnDb(id: int, kind: int, ip: string)
      modifies this`log
      ensures log == old(log) + [Record(id, kind, ip)]
    {
      log := log + [Record(id, kind, ip)];
    }
  }

  /** 1 if the library's score is above the threshold, else 0. */
  method CompareFeature(c: Config, model: Model, probe: Model) returns (r: int)
    ensures r == 1 || r == 0
    ensures r == 1 <==> c.score(model, probe) > 0.95
  {
    var res := c.score(model, probe);
    if res > THRESHOLD {
      return 1;
    }
    return 0;
  }

  class FaceEngines {
    const db: FeatureDb
    const mutex: PoolMutex
    var sem: nat
    var pool: seq<int>  // the top of the stack is its end

    ghost predicate Valid()
      reads this, mutex, db, db.lockUser, db.lockGuest
    {
      db.Valid() && mutex.owner.None? && sem <= |pool|
    }

    /** The objects are in the state that the step system calls `s`. */
    ghost predicate Matches(s: State)
      reads this, mutex, db, db.lockUser, db.lockGuest
    {
      && sem == s.sem && pool == s.pool && mutex.owner == s.mutex && db.Contents() == s.db
      && db.lockUser.readers == |s.userReaders| && !db.lockUser.writer
      && db.lockGuest.readers == |s.guestReaders| && db.lockGuest.writer == s.guestWriter.Some?
    }

    constructor (db: FeatureDb)
      requires db.Valid()
      ensures this.db == db && sem == 10 && pool == [] && mutex.owner.None? && fresh(mutex)
    {
      this.db := db;
      mutex := new PoolMutex();
      sem := ENGINES;
      pool := [];
    }

    /** `inits` are the results of initialising the engines. Called once, it stacks the ten indices and
        returns 0 exactly when all have succeeded; called again, it would stack them a second time. */
    method StartEngines(inits: seq<bv32>) returns (res: bv32)
      requires |inits| == 10
      modifies this`pool
      ensures pool == old(pool) + [0, 1, 2, 3, 4, 5, 6, 7, 8, 9]
      ensures res == 0 <==> forall i :: 0 <= i < 10 ==> inits[i] == 0
    {
      res := 0;
      for i := 0 to ENGINES
        invariant pool == old(pool) + seq(i, k => k)
        invariant res == 0 <==> forall k :: 0 <= k < i ==> inits[k] == 0
      {
        res := res | inits[i];
        pool := pool + [i];
      }
    }

    method PopEngineIndex(self: Tid, ghost c: Config, ghost s0: State, ghost s: State) returns (e: int, ghost s': State)
      requires Matches(s) && Reaches(c, s0, self, s)
      requires self < |s.threads| && s.threads[self].pc == Start
      requires 0 < sem <= |pool| && mutex.owner.None?
      modifies this`sem, this`pool, mutex
      ensures sem == old(sem) - 1 && old(pool) == pool + [e] && mutex.owner.None?
      ensures Matches(s') && Reaches(c, s0, self, s')
      ensures s' == At(s.(sem := sem, pool := pool), self, Ready(e))
    {
      s' := PopReaches(c, s0, s, self);
      sem := sem - 1;
      mutex.Lock(self);
      e := pool[|pool| - 1];
      pool := pool[..|pool| - 1];
      mutex.Unlock(self);
    }

    method PushEngineIndex(self: Tid, e: int, ghost ret: int, ghost c: Config, ghost s0: State, ghost s: State)
      returns (ghost s': State)
      requires Matches(s) && Reaches(c, s0, self, s)
      requires self < |s.threads| && s.threads[self].pc == Giving(e, ret)
      requires mutex.owner.None?
      modifies this`sem, this`pool, mutex
      ensures sem == old(sem) + 1 && pool == old(pool) + [e] && mutex.owner.None?
      ensures Matches(s') && Reaches(c, s0, self, s')
      ensures s' == At(s.(sem := sem, pool := pool), self,
                       if s.threads[self].req.AddUser? && ret == 0 then Storing else Done(ret))
    {
      s' := PushReaches(c, s0, s, self);
      mutex.Lock(self);
      pool := pool + [e];
      mutex.Unlock(self);
      sem := sem + 1;
    }

    /** 0 if somebody matches, else 1. */
    method CompareFace(self: Tid, c: Config, loads: bool, probe: Model, ip: string, ghost s: State)
      returns (ret: int, ghost s': State)
      requires Valid() && sem > 0 && c.users == db.cache
      requires Matches(s) && self < |s.threads| && s.threads[self].pc == Start
      requires s.threads[self].req == Compare(loads, probe, ip)
      modifies this, mutex, db, db.lockUser, db.lockGuest
      ensures Valid() && sem == old(sem) && pool == old(pool)
      ensures (db.Contents(), ret) == Execute(c, old(db.Contents()), Compare(loads, probe, ip))
      ensures !loads ==> ret == 1 && db.Contents() == old(db.Contents())
      ensures loads ==>
                (ret == 0 <==> ScoresAbove(c, db.cache, probe) || ScoresAbove(c, old(db.cacheGuest), probe))
      ensures Matches(s') && Reaches(c, s, self, s')
      ensures |s'.threads| == |s.threads| && s'.threads[self].pc == Done(ret)
    {
      ReachesSelf(c, s, self);
      var e;
      ghost var s1;
      e, s1 := PopEngineIndex(self, c, s, s);
      s1 := LoadReaches(c, s, s1, self, e);
      if !loads {
        s' := PushEngineIndex(self, e, 1, c, s, s1);
        return 1, s';
      }
      CompareVerdict(c, db.Contents(), probe, ip);
      ret, s1 := Match(self, e, c, probe, ip, s, s1);
      s' := PushEngineIndex(self, e, ret, c, s, s1);
    }

    /** The two scans: the guests are looked at only if no user matches. */
    method Match(self: Tid, ghost e: int, c: Config, probe: Model, ip: string, ghost s0: State, ghost s: State)
      returns (ret: int, ghost s': State)
      requires db.Valid() && c.users == db.cache
      requires Matches(s) && Reaches(c, s0, self, s) && self < |s.threads|
      requires s.threads[self].pc == WantUsers(e) && s.threads[self].req.Compare?
      requires s.threads[self].req.probe == probe && s.threads[self].req.ip == ip
      modifies db`log, db.lockUser, db.lockGuest
      ensures db.Valid()
      ensures (db.Contents(), ret) == Execute(c, old(db.Contents()), Compare(true, probe, ip))
      ensures Matches(s') && Reaches(c, s0, self, s')
      ensures |s'.threads| == |s.threads| && s'.threads[self].req == s.threads[self].req
      ensures s'.threads[self].pc == Giving(e, ret)
    {
      var guestRet, userRet := 0, 0;
      userRet, s' := ScanUsers(self, e, c, probe, ip, s0, s);
      if userRet != 1 {
        guestRet, s' := ScanGuests(self, e, c, probe, ip, s0, s');
      }
      ret := if userRet != 0 || guestRet == 1 then 0 else 1;
    }

    method ScanUsers(self: Tid, ghost e: int, c: Config, probe: Model, ip: string, ghost s0: State, ghost s: State)
      returns (userRet: int, ghost s': State)
      requires db.Valid() && c.users == db.cache
      requires Matches(s) && Reaches(c, s0, self, s) && self < |s.threads|
      requires s.threads[self].pc == WantUsers(e) && s.threads[self].req.Compare?
      requires s.threads[self].req.probe == probe && s.threads[self].req.ip == ip
      modifies db`log, db.lockUser
      ensures db.Valid()
      ensures var u := First(c, db.cache, probe);
              if u < |db.cache|
              then userRet == 1 && db.log == old(db.log) + [Record(db.cache[u].id, 1, ip)]
              else userRet == 0 && db.log == old(db.log)
      ensures Matches(s') && Reaches(c, s0, self, s')
      ensures |s'.threads| == |s.threads|
      ensures s'.threads[self] == s.threads[self].(pc := if userRet == 1 then Giving(e, 0) else WantGuests(e))
    {
      userRet := 0;
      s' := UsersLocked(c, s0, s, self, e);
      ghost var scanning := s.(userReaders := {self});
      var users := db.GetCache();
      var it := 0;
      while it != |users|
        invariant it <= |users| && userRet == 0 && db.log == old(db.log)
        invariant forall i :: 0 <= i < it ==> !c.Matches(users[i].model, probe)
        invariant db.lockUser.readers == 1 && !db.lockUser.writer
        invariant Reaches(c, s0, self, s') && s' == At(scanning, self, UserScan(e, it))
        decreases |users| - it
      {
        s' := UserTurn(c, s0, scanning, self, e, it);
        userRet := CompareFeature(c, users[it].model, probe);
        if userRet == 1 {
          db.QueryAddOnDb(users[it].id, USER, ip);
          scanning := Effect(scanning, self, db.Contents());
          break;
        }
        it := it + 1;
      }
      FirstIs(c, users, probe, it);
      if userRet != 1 {
        s' := UserTurn(c, s0, scanning, self, e, it);
      }
      s' := UsersUnlocked(c, s0, scanning, self, e, userRet == 1);
      db.lockUser.Unlock();
    }

    method ScanGuests(self: Tid, ghost e: int, c: Config, probe: Model, ip: string, ghost s0: State, ghost s: State)
      returns (guestRet: int, ghost s': State)
      requires db.Valid()
      requires Matches(s) && Reaches(c, s0, self, s) && self < |s.threads|
      requires s.threads[self].pc == WantGuests(e) && s.threads[self].req.Compare?
      requires s.threads[self].req.probe == probe && s.threads[self].req.ip == ip
      modifies db`log, db.lockGuest
      ensures db.Valid()
      ensures var g := First(c, db.cacheGuest, probe);
              if g < |db.cacheGuest|
              then guestRet == 1 && db.log == old(db.log) + [Record(db.cacheGuest[g].id, 2, ip)]
              else guestRet == 0 && db.log == old(db.log)
      ensures Matches(s') && Reaches(c, s0, self, s')
      ensures |s'.threads| == |s.threads| && s'.threads[self].req == s.threads[self].req
      ensures s'.threads[self].pc == Giving(e, if guestRet == 1 then 0 else 1)
    {
      guestRet := 0;
      s' := GuestsLocked(c, s0, s, self, e);
      ghost var scanning := Remembering(s, self);
      var guests := db.GetCacheGuest();
      var it := 0;
      while it != |guests|
        invariant it <= |guests| && guestRet == 0 && db.log == old(db.log)
        invariant forall i :: 0 <= i < it ==> !c.Matches(guests[i].model, probe)
        invariant db.lockGuest.readers == 1 && !db.lockGuest.writer
        invariant Reaches(c, s0, self, s') && s' == At(scanning, self, GuestScan(e, it))
        decreases |guests| - it
      {
        s' := GuestTurn(c, s0, scanning, self, e, it);
        guestRet := CompareFeature(c, guests[it].model, probe);
        if guestRet == 1 {
          db.QueryAddOnDb(guests[it].id, GUEST, ip);
          break;
        }
        it := it + 1;
      }
      FirstIs(c, guests, probe, it);
      if guestRet != 1 {
        s' := GuestTurn(c, s0, scanning, self, e, it);
      }
      scanning := Effect(scanning, self, db.Contents());
      s' := GuestsUnlocked(c, s0, scanning, self, e, if guestRet == 1 then 0 else 1);
      db.lockGuest.Unlock();
    }

    /** Gives the engine back, and only then stores the feature, if there is one. */
    method GiveAndStore(self: Tid, e: int, ghost c: Config, extracted: bool, model: Model, id: int,
                        ghost s0: State, ghost s: State)
      returns (ret: int, ghost s': State)
      requires Valid() && Matches(s) && Reaches(c, s0, self, s) && self < |s.threads|
      requires s.threads[self].req == AddUser(true, extracted, model, id)
      requires s.threads[self].pc == Giving(e, if extracted then 0 else 1)
      modifies this`sem, this`pool, mutex, db`updates
      ensures db.Valid() && mutex.owner.None? && sem == old(sem) + 1 && pool == old(pool) + [e]
      ensures ret == if extracted then 0 else 1
      ensures db.updates == if extracted then old(db.updates) + [Entry(model, id)] else old(db.updates)
      ensures Matches(s') && Reaches(c, s0, self, s')
      ensures |s'.threads| == |s.threads| && s'.threads[self].pc == Done(ret)
    {
      s' := PushEngineIndex(self, e, if extracted then 0 else 1, c, s0, s);
      if extracted {
        s' := StoreReaches(c, s0, s', self);
        db.AddFeatureUser(model, id);
        ret := 0;
      } else {
        ret := 1;
      }
    }

    /** The user's feature goes to the database only, after the engine has been given back. */
    method AddFeature(self: Tid, c: Config, loads: bool, extracted: bool, model: Model, id: int, ghost s: State)
      returns (ret: int, ghost s': State)
      requires Valid() && sem > 0
      requires Matches(s) && self < |s.threads| && s.threads[self].pc == Start
      requires s.threads[self].req == AddUser(loads, extracted, model, id)
      modifies this, mutex, db
      ensures Valid() && sem == old(sem) && pool == old(pool)
      ensures (db.Contents(), ret) == Execute(c, old(db.Contents()), AddUser(loads, extracted, model, id))
      ensures ret == if loads && extracted then 0 else 1
      ensures db.updates == if loads && extracted then old(db.updates) + [Entry(model, id)] else old(db.updates)
      ensures db.log == old(db.log) && db.cacheGuest == old(db.cacheGuest)
      ensures Matches(s') && Reaches(c, s, self, s')
      ensures |s'.threads| == |s.threads| && s'.threads[self].pc == Done(ret)
    {
      ReachesSelf(c, s, self);
      var e;
      ghost var s1;
      e, s1 := PopEngineIndex(self, c, s, s);
      s1 := LoadReaches(c, s, s1, self, e);
      assert s1.threads[self].pc == Giving(e, if loads && extracted then 0 else 1);
      assert Matches(s1) && |s1.threads| == |s.threads|;
      if !loads {
        s' := PushEngineIndex(self, e, 1, c, s, s1);
        return 1, s';
      }
      ret, s' := GiveAndStore(self, e, c, extracted, model, id, s, s1);
    }

    method AddFeatureG(self: Tid, c: Config, loads: bool, extracted: bool, model: Model, id: int, now: nat, ghost s: State)
      returns (ret: int, ghost s': State)
      requires Valid() && sem > 0
      requires Matches(s) && self < |s.threads| && s.threads[self].pc == Start
      requires s.threads[self].req == AddGuest(loads, extracted, model, id)
      modifies this, mutex, db, db.lockGuest
      ensures Valid() && sem == old(sem) && pool == old(pool)
      ensures (db.Contents(), ret) == Execute(c, old(db.Contents()), AddGuest(loads, extracted, model, id))
      ensures ret == if loads && extracted then 0 else 1
      ensures db.cacheGuest == if loads && extracted then old(db.cacheGuest) + [Entry(model, id)] else old(db.cacheGuest)
      ensures db.log == old(db.log) && db.updates == old(db.updates)
      ensures Matches(s') && Reaches(c, s, self, s')
      ensures |s'.threads| == |s.threads| && s'.threads[self].pc == Done(ret)
    {
      ReachesSelf(c, s, self);
      var e;
      ghost var s1;
      e, s1 := PopEngineIndex(self, c, s, s);
      s1 := LoadReaches(c, s, s1, self, e);
      if !loads {
        s' := PushEngineIndex(self, e, 1, c, s, s1);
        return 1, s';
      }
      if extracted {
        s1 := AppendReaches(c, s, s1, self);
        db.AddFeatureGuest(model, id, now);
      } else {
        s' := PushEngineIndex(self, e, 1, c, s, s1);
        return 1, s';
      }
      s' := PushEngineIndex(self, e, 0, c, s, s1);
      ret := 0;
    }
  }
}
