/** Every run of the request protocol is equivalent to executing its requests one at a time. */
module EngineLinearizability {
  import opened Options
  import opened Histories
  import opened EngineSpec
  import opened EngineProtocol
  import opened EngineInvariant
  import opened EngineProperties

  /** The database and the return values after executing the requests of `hist` one after the other. */
  datatype Replayed = Replayed(db: Db, rets: map<Tid, int>)

  function Replay(c: Config, guests0: seq<Entry>, ts: seq<Thread>, hist: seq<Tid>): (r: Replayed)
    requires forall i :: 0 <= i < |hist| ==> hist[i] < |ts|
    ensures forall t :: t in r.rets <==> t in hist
  {
    if hist == [] then Replayed(Db(guests0, [], []), map[]) else
      var before, t := Replay(c, guests0, ts, hist[..|hist| - 1]), hist[|hist| - 1];
      var (db, ret) := Execute(c, before.db, ts[t].req);
      Replayed(db, before.rets[t := ret])
  }

  /** The replay depends on the requests only. */
  lemma {:induction false} ReplaySameRequests(c: Config, guests0: seq<Entry>, ts: seq<Thread>, us: seq<Thread>, hist: seq<Tid>)
    requires |ts| == |us| && forall t :: 0 <= t < |ts| ==> ts[t].req == us[t].req
    requires forall i :: 0 <= i < |hist| ==> hist[i] < |ts|
    ensures Replay(c, guests0, ts, hist) == Replay(c, guests0, us, hist)
  {
    if hist != [] {
      ReplaySameRequests(c, guests0, ts, us, hist[..|hist| - 1]);
    }
  }

  lemma ReplayAppend(c: Config, guests0: seq<Entry>, ts: seq<Thread>, hist: seq<Tid>, t: Tid)
    requires (forall i :: 0 <= i < |hist| ==> hist[i] < |ts|) && t < |ts|
    ensures var before := Replay(c, guests0, ts, hist);
            var (db, ret) := Execute(c, before.db, ts[t].req);
            Replay(c, guests0, ts, hist + [t]) == Replayed(db, before.rets[t := ret])
  {
    assert (hist + [t])[..|hist|] == hist;
  }

  /** `rets` has the return value of each request that has taken effect, and of no other. */
  predicate Outcomes(ts: seq<Thread>, rets: map<Tid, int>)
  {
    forall t :: 0 <= t < |ts| ==> Result(ts[t]) == if t in rets then Some(rets[t]) else None
  }

  /** The history replays to the present database; it lists each request that has taken effect, once; and
      each of those returns what it returned in the replay. */
  ghost predicate Explained(c: Config, guests0: seq<Entry>, s: State)
  {
    && (forall i :: 0 <= i < |s.hist| ==> s.hist[i] < |s.threads|)
    && (forall i, j :: 0 <= i < j < |s.hist| ==> s.hist[i] != s.hist[j])
    && var r := Replay(c, guests0, s.threads, s.hist);
       && r.db == s.db
       && Outcomes(s.threads, r.rets)
  }

  lemma OutcomesExtend(ts: seq<Thread>, ts': seq<Thread>, rets: map<Tid, int>, t: Tid, ret: int)
    requires Outcomes(ts, rets) && t < |ts| == |ts'| && Result(ts'[t]) == Some(ret)
    requires forall u :: 0 <= u < |ts| && u != t ==> ts'[u] == ts[u]
    ensures Outcomes(ts', rets[t := ret])
  {
  }

  lemma InitExplained(c: Config, s: State)
    requires Init(s)
    ensures Explained(c, s.db.guests, s)
  {
  }

  /** Does the step make the request take effect? */
  predicate TakesEffect(c: Config, s: State, t: Tid)
    requires CanStep(false, s, t)
  {
    Step(c, s, t).hist != s.hist
  }

  /** A step of any other kind changes neither the database nor the outcome of the request. */
  lemma QuietStep(c: Config, s: State, t: Tid)
    requires ScansOk(c, s) && CanStep(false, s, t) && !TakesEffect(c, s, t)
    requires !s.threads[t].pc.PopLocked? || s.pool != []
    ensures Step(c, s, t).db == s.db
    ensures Result(Step(c, s, t).threads[t]) == Result(s.threads[t])
  {
    assert ThreadOk(c, s.db.guests, s.threads[t]);
  }

  /** What a comparison executed alone would do, once its scan has stopped at user `i`. */
  lemma UserHit(c: Config, db: Db, r: Request, i: nat)
    requires r.Compare? && r.loads && i < |c.users| && NoneBefore(c, c.users, r.probe, i)
    requires c.Matches(c.users[i].model, r.probe)
    ensures Execute(c, db, r) == (db.(log := db.log + [Record(c.users[i].id, USER, r.ip)]), 0)
  {
    FirstIs(c, c.users, r.probe, i);
  }

  /** The same once its second scan has stopped at guest `i`, or at the end of the list. */
  lemma GuestScanned(c: Config, db: Db, r: Request, i: nat)
    requires r.Compare? && r.loads && NoneBefore(c, c.users, r.probe, |c.users|) && NoneBefore(c, db.guests, r.probe, i)
    requires i < |db.guests| ==> c.Matches(db.guests[i].model, r.probe)
    ensures Execute(c, db, r) == if i < |db.guests|
                                 then (db.(log := db.log + [Record(db.guests[i].id, GUEST, r.ip)]), 0)
                                 else (db, 1)
  {
    FirstIs(c, c.users, r.probe, |c.users|);
    FirstIs(c, db.guests, r.probe, i);
  }

  /** A step that takes effect has, at that instant, the effect and the outcome of the whole request. */
  lemma EffectStep(c: Config, s: State, t: Tid)
    requires ScansOk(c, s) && CanStep(false, s, t) && TakesEffect(c, s, t)
    ensures Step(c, s, t).hist == s.hist + [t]
    ensures Result(s.threads[t]).None?
    ensures Execute(c, s.db, s.threads[t].req).0 == Step(c, s, t).db
    ensures Result(Step(c, s, t).threads[t]) == Some(Execute(c, s.db, s.threads[t].req).1)
  {
    var th := s.threads[t];
    assert ThreadOk(c, s.db.guests, th);
    match th.pc
    case UserScan(e, i) => UserHit(c, s.db, th.req, i);
    case GuestScan(e, i) => GuestScanned(c, s.db, th.req, i);
    case _ =>
  }

  /** `s'` differs from `s` in the record of thread `t`, which still has the same request. */
  ghost predicate ChangesOnly(s: State, s': State, t: Tid)
  {
    && t < |s.threads| == |s'.threads| && s'.threads[t].req == s.threads[t].req
    && forall u :: 0 <= u < |s.threads| && u != t ==> s'.threads[u] == s.threads[u]
  }

  lemma QuietChange(c: Config, guests0: seq<Entry>, s: State, s': State, t: Tid)
    requires Explained(c, guests0, s) && ChangesOnly(s, s', t)
    requires s'.hist == s.hist && s'.db == s.db && Result(s'.threads[t]) == Result(s.threads[t])
    ensures Explained(c, guests0, s')
  {
    ReplaySameRequests(c, guests0, s.threads, s'.threads, s.hist);
  }

  lemma Listed(hist: seq<Tid>, t: Tid, n: nat)
    requires forall i :: 0 <= i < |hist| ==> hist[i] < n
    requires forall i, j :: 0 <= i < j < |hist| ==> hist[i] != hist[j]
    requires t !in hist && t < n
    ensures forall i :: 0 <= i < |hist| + 1 ==> (hist + [t])[i] < n
    ensures forall i, j :: 0 <= i < j < |hist| + 1 ==> (hist + [t])[i] != (hist + [t])[j]
  {
  }

  lemma ResultIffListed(c: Config, guests0: seq<Entry>, s: State, t: Tid)
    requires Explained(c, guests0, s) && t < |s.threads|
    ensures t in s.hist <==> Result(s.threads[t]).Some?
  {
  }

  lemma EffectiveChange(c: Config, guests0: seq<Entry>, s: State, s': State, t: Tid, ret: int)
    requires Explained(c, guests0, s) && ChangesOnly(s, s', t)
    requires s'.hist == s.hist + [t] && Result(s.threads[t]).None?
    requires Execute(c, s.db, s.threads[t].req) == (s'.db, ret) && Result(s'.threads[t]) == Some(ret)
    ensures Explained(c, guests0, s')
  {
    var rets := Replay(c, guests0, s.threads, s.hist).rets;
    ResultIffListed(c, guests0, s, t);
    Listed(s.hist, t, |s.threads|);
    assert Replay(c, guests0, s'.threads, s'.hist) == Replayed(s'.db, rets[t := ret]) by {
      ReplaySameRequests(c, guests0, s.threads, s'.threads, s.hist);
      ReplayAppend(c, guests0, s'.threads, s.hist, t);
    }
    OutcomesExtend(s.threads, s'.threads, rets, t, ret);
  }

  lemma StepExplained(c: Config, guests0: seq<Entry>, s: State, t: Tid)
    requires Inv(c, s) && Explained(c, guests0, s) && CanStep(false, s, t)
    ensures Explained(c, guests0, Step(c, s, t))
  {
    StepCounts(c, s, t);
    OthersKeep(c, s, t);
    if TakesEffect(c, s, t) {
      EffectStep(c, s, t);
      EffectiveChange(c, guests0, s, Step(c, s, t), t, Execute(c, s.db, s.threads[t].req).1);
    } else {
      if s.threads[t].pc.PopLocked? {
        TopExists(s, t);
      }
      QuietStep(c, s, t);
      QuietChange(c, guests0, s, Step(c, s, t), t);
    }
  }

  lemma {:induction false} RunExplained(c: Config, guests0: seq<Entry>, s: State, ts: seq<Tid>)
    requires Inv(c, s) && Explained(c, guests0, s) && IsRun(c, s, ts)
    ensures Explained(c, guests0, Final(c, s, ts))
    decreases |ts|
  {
    if ts != [] {
      StepInv(c, s, ts[0]);
      StepExplained(c, guests0, s, ts[0]);
      RunExplained(c, guests0, Step(c, s, ts[0]), ts[1..]);
    }
  }

  /** The history is only ever extended, and a request enters it before it is answered and not before
      it has begun. */
  lemma {:induction false} HistoryGrows(c: Config, s: State, ts: seq<Tid>)
    requires IsRun(c, s, ts)
    ensures s.hist <= Final(c, s, ts).hist
    decreases |ts|
  {
    if ts != [] {
      HistoryGrows(c, Step(c, s, ts[0]), ts[1..]);
    }
  }

  lemma AnsweredAreReplayed(c: Config, guests0: seq<Entry>, s: State)
    requires Explained(c, guests0, s)
    ensures forall t :: 0 <= t < |s.threads| ==> (t in s.hist <==> Result(s.threads[t]).Some?)
    ensures forall t :: 0 <= t < |s.threads| && s.threads[t].pc.Done? ==>
              t in s.hist && Replay(c, guests0, s.threads, s.hist).rets[t] == s.threads[t].pc.ret
  {
    forall t | 0 <= t < |s.threads| ensures t in s.hist <==> Result(s.threads[t]).Some? {
      ResultIffListed(c, guests0, s, t);
    }
    var rets := Replay(c, guests0, s.threads, s.hist).rets;
    forall t | 0 <= t < |s.threads| && s.threads[t].pc.Done?
      ensures t in s.hist && rets[t] == s.threads[t].pc.ret
    {
      assert Result(s.threads[t]) == Some(s.threads[t].pc.ret);
      assert Result(s.threads[t]) == if t in rets then Some(rets[t]) else None;
    }
  }

  /** Linearizability. In every reachable state there is an order of the requests that have taken effect,
      among them all answered ones, in which executing them one at a time gives the present guest list,
      import log and user updates, and gives every request the answer it got. */
  lemma Linearizable(c: Config, s0: State, ts: seq<Tid>)
    requires Init(s0) && IsRun(c, s0, ts)
    ensures var s := Final(c, s0, ts);
            && Explained(c, s0.db.guests, s)
            && Replay(c, s0.db.guests, s.threads, s.hist).db == s.db
            && forall t :: 0 <= t < |s.threads| && s.threads[t].pc.Done? ==>
                 t in s.hist && Replay(c, s0.db.guests, s.threads, s.hist).rets[t] == s.threads[t].pc.ret
  {
    InitInv(c, s0);
    InitExplained(c, s0);
    RunExplained(c, s0.db.guests, s0, ts);
    AnsweredAreReplayed(c, s0.db.guests, Final(c, s0, ts));
  }

  /** The order respects real time: a request that was answered, or had at least taken effect, before
      another one began comes before that one as soon as it takes effect. */
  lemma OrderRespectsRealTime(c: Config, s0: State, ts: seq<Tid>, us: seq<Tid>, t: Tid, u: Tid)
    requires Init(s0) && IsRun(c, s0, ts) && IsRun(c, Final(c, s0, ts), us)
    requires t < |s0.threads| && u < |s0.threads|
    requires Final(c, s0, ts).threads[t].pc.Done? || t in Final(c, s0, ts).hist
    requires Final(c, s0, ts).threads[u].pc == Start && u in Final(c, Final(c, s0, ts), us).hist
    ensures Precedes(Final(c, Final(c, s0, ts), us).hist, t, u)
  {
    var s := Final(c, s0, ts);
    InitInv(c, s0);
    InitExplained(c, s0);
    RunInv(c, s0, ts);
    RunExplained(c, s0.db.guests, s0, ts);
    RunExplained(c, s0.db.guests, s, us);
    HistoryGrows(c, s, us);
    AnsweredAreReplayed(c, s0.db.guests, s);
    AnsweredAreReplayed(c, s0.db.guests, Final(c, s, us));
    LaterEntries(s.hist, Final(c, s, us).hist, t, u);
  }

  // ----- comparisons -----

  /** A finished comparison of an image that loads has returned 0 exactly when a user matches, or a guest
      in the list as it stood when the guest read lock was taken. */
  lemma ComparisonVerdict(c: Config, s0: State, ts: seq<Tid>, t: Tid)
    requires Init(s0) && IsRun(c, s0, ts) && t < |s0.threads|
    requires Final(c, s0, ts).threads[t].pc.Done?
    ensures var th := Final(c, s0, ts).threads[t];
            th.req.Compare? && th.req.loads ==>
              (th.pc.ret == 0 <==> ScoresAbove(c, c.users, th.req.probe) || ScoresAbove(c, th.snap, th.req.probe))
  {
    ReachableInv(c, s0, ts);
    var s := Final(c, s0, ts);
    assert ThreadOk(c, s.db.guests, s.threads[t]);
    if s.threads[t].req.Compare? {
      MatchedIsAbove(c, c.users, s.threads[t].req.probe);
      MatchedIsAbove(c, s.threads[t].snap, s.threads[t].req.probe);
    }
  }

  /** While any comparison scans the guest list, the list is the one it locked, and no step of any other
      request changes it. */
  lemma GuestsStandStill(c: Config, s0: State, ts: seq<Tid>, t: Tid, u: Tid)
    requires Init(s0) && IsRun(c, s0, ts) && t < |s0.threads| && u < |s0.threads|
    requires ReadsGuests(Final(c, s0, ts).threads[t].pc) && CanStep(false, Final(c, s0, ts), u)
    ensures Final(c, s0, ts).threads[t].snap == Final(c, s0, ts).db.guests
    ensures Step(c, Final(c, s0, ts), u).db.guests == Final(c, s0, ts).db.guests
  {
    ReachableInv(c, s0, ts);
    var s := Final(c, s0, ts);
    assert ThreadOk(c, s.db.guests, s.threads[t]);
    assert ThreadOk(c, s.db.guests, s.threads[u]);
  }

  /** The record a comparison is due: the first matching user's, else the first matching guest's in the
      list it locked, else none. */
  function Verdict(c: Config, th: Thread): seq<Record>
  {
    if !th.req.Compare? || !th.req.loads then [] else
      var u, g := First(c, c.users, th.req.probe), First(c, th.snap, th.req.probe);
      if u < |c.users| then [Record(c.users[u].id, USER, th.req.ip)]
      else if g < |th.snap| then [Record(th.snap[g].id, GUEST, th.req.ip)]
      else []
  }

  /** The records due to the requests of `hist`, in order. */
  function Written(c: Config, ts: seq<Thread>, hist: seq<Tid>): seq<Record>
    requires forall i :: 0 <= i < |hist| ==> hist[i] < |ts|
  {
    if hist == [] then [] else
      Written(c, ts, hist[..|hist| - 1]) + Verdict(c, ts[hist[|hist| - 1]])
  }

  lemma {:induction false} WrittenSame(c: Config, ts: seq<Thread>, us: seq<Thread>, hist: seq<Tid>)
    requires forall i :: 0 <= i < |hist| ==> hist[i] < |ts| && hist[i] < |us|
    requires forall i :: 0 <= i < |hist| ==> Verdict(c, ts[hist[i]]) == Verdict(c, us[hist[i]])
    ensures Written(c, ts, hist) == Written(c, us, hist)
  {
    if hist != [] {
      WrittenSame(c, ts, us, hist[..|hist| - 1]);
    }
  }

  ghost predicate LogOk(c: Config, s: State)
  {
    && (forall i :: 0 <= i < |s.hist| ==> s.hist[i] < |s.threads|)
    && s.db.log == Written(c, s.threads, s.hist)
  }

  /** A step that takes effect writes the record the comparison is due. */
  lemma EffectLog(c: Config, s: State, t: Tid)
    requires ScansOk(c, s) && CanStep(false, s, t) && TakesEffect(c, s, t)
    ensures Step(c, s, t).db.log == s.db.log + Verdict(c, Step(c, s, t).threads[t])
  {
    var th := s.threads[t];
    assert ThreadOk(c, s.db.guests, th);
    match th.pc
    case UserScan(e, i) =>
      FirstIs(c, c.users, th.req.probe, i);
    case GuestScan(e, i) =>
      FirstIs(c, c.users, th.req.probe, |c.users|);
      FirstIs(c, s.db.guests, th.req.probe, i);
    case _ =>
  }

  /** Once a request has taken effect, what it was due does not change any more. */
  lemma VerdictStands(c: Config, s: State, t: Tid)
    requires CanStep(false, s, t) && Result(s.threads[t]).Some?
    ensures Verdict(c, Step(c, s, t).threads[t]) == Verdict(c, s.threads[t])
  {
    assert !s.threads[t].pc.WantGuests?;
    assert Step(c, s, t).threads[t].snap == s.threads[t].snap;
  }

  lemma VerdictsStand(c: Config, guests0: seq<Entry>, s: State, t: Tid)
    requires Explained(c, guests0, s) && LogOk(c, s) && CanStep(false, s, t)
    ensures Written(c, Step(c, s, t).threads, s.hist) == s.db.log
  {
    var s' := Step(c, s, t);
    StepCounts(c, s, t);
    forall i | 0 <= i < |s.hist| ensures Verdict(c, s'.threads[s.hist[i]]) == Verdict(c, s.threads[s.hist[i]]) {
      if s.hist[i] == t {
        ResultIffListed(c, guests0, s, t);
        VerdictStands(c, s, t);
      }
    }
    WrittenSame(c, s'.threads, s.threads, s.hist);
  }

  lemma StepLogOk(c: Config, guests0: seq<Entry>, s: State, t: Tid)
    requires Inv(c, s) && Explained(c, guests0, s) && LogOk(c, s) && CanStep(false, s, t)
    ensures LogOk(c, Step(c, s, t))
  {
    VerdictsStand(c, guests0, s, t);
    if TakesEffect(c, s, t) {
      EffectStep(c, s, t);
      EffectLog(c, s, t);
      assert (s.hist + [t])[..|s.hist|] == s.hist;
    } else {
      if s.threads[t].pc.PopLocked? {
        TopExists(s, t);
      }
      QuietStep(c, s, t);
    }
  }

  lemma {:induction false} RunLogOk(c: Config, guests0: seq<Entry>, s: State, ts: seq<Tid>)
    requires Inv(c, s) && Explained(c, guests0, s) && LogOk(c, s) && IsRun(c, s, ts)
    ensures LogOk(c, Final(c, s, ts))
    decreases |ts|
  {
    if ts != [] {
      StepInv(c, s, ts[0]);
      StepExplained(c, guests0, s, ts[0]);
      StepLogOk(c, guests0, s, ts[0]);
      RunLogOk(c, guests0, Step(c, s, ts[0]), ts[1..]);
    }
  }

  /** In every reachable state the import log consists of the records due to the comparisons that have
      taken effect, in that order: one for the first matching user or else for the first matching guest,
      none for a comparison that fails or for any other request. */
  lemma LogIsTheVerdicts(c: Config, s0: State, ts: seq<Tid>)
    requires Init(s0) && IsRun(c, s0, ts)
    ensures var s := Final(c, s0, ts);
            && (forall i :: 0 <= i < |s.hist| ==> s.hist[i] < |s.threads|)
            && s.db.log == Written(c, s.threads, s.hist)
            && (forall i, j :: 0 <= i < j < |s.hist| ==> s.hist[i] != s.hist[j])
            && (forall t :: 0 <= t < |s.threads| ==> (t in s.hist <==> Result(s.threads[t]).Some?))
  {
    InitInv(c, s0);
    InitExplained(c, s0);
    RunExplained(c, s0.db.guests, s0, ts);
    RunLogOk(c, s0.db.guests, s0, ts);
    forall t | 0 <= t < |Final(c, s0, ts).threads|
      ensures t in Final(c, s0, ts).hist <==> Result(Final(c, s0, ts).threads[t]).Some?
    {
      ResultIffListed(c, s0.db.guests, Final(c, s0, ts), t);
    }
  }

  /** A finished comparison has returned 0 exactly when it is due a record. */
  lemma SuccessIsRecorded(c: Config, s0: State, ts: seq<Tid>, t: Tid)
    requires Init(s0) && IsRun(c, s0, ts) && t < |s0.threads|
    requires Final(c, s0, ts).threads[t].pc.Done?
    requires Final(c, s0, ts).threads[t].req.Compare?
    ensures var th := Final(c, s0, ts).threads[t];
            && (th.pc.ret == 0 <==> |Verdict(c, th)| == 1)
            && (th.pc.ret == 1 <==> Verdict(c, th) == [])
  {
    ReachableInv(c, s0, ts);
    var s := Final(c, s0, ts);
    assert ThreadOk(c, s.db.guests, s.threads[t]);
  }

  // ----- additions -----

  /** The entry that an add request is due, in the user updates or in the guest list. */
  function Due(r: Request, user: bool): seq<Entry>
  {
    if r.Compare? || r.AddUser? != user || !r.loads || !r.extracted then [] else [Entry(r.model, r.id)]
  }

  /** The entries due to the requests of `hist`, in order. */
  function Additions(ts: seq<Thread>, hist: seq<Tid>, user: bool): seq<Entry>
    requires forall i :: 0 <= i < |hist| ==> hist[i] < |ts|
  {
    if hist == [] then [] else
      Additions(ts, hist[..|hist| - 1], user) + Due(ts[hist[|hist| - 1]].req, user)
  }

  lemma ExecuteAdds(c: Config, db: Db, r: Request)
    ensures Execute(c, db, r).0.updates == db.updates + Due(r, true)
    ensures Execute(c, db, r).0.guests == db.guests + Due(r, false)
  {
  }

  lemma {:induction false} ReplayAdds(c: Config, guests0: seq<Entry>, ts: seq<Thread>, hist: seq<Tid>)
    requires forall i :: 0 <= i < |hist| ==> hist[i] < |ts|
    ensures Replay(c, guests0, ts, hist).db.updates == Additions(ts, hist, true)
    ensures Replay(c, guests0, ts, hist).db.guests == guests0 + Additions(ts, hist, false)
  {
    if hist != [] {
      var n := |hist| - 1;
      ReplayAdds(c, guests0, ts, hist[..n]);
      ExecuteAdds(c, Replay(c, guests0, ts, hist[..n]).db, ts[hist[n]].req);
    }
  }

  /** In every reachable state the user updates, and the guests that have come after the initial ones, are
      exactly the entries of the add requests that have taken effect, loaded and were extracted, in the
      order in which they took effect. */
  lemma ListsAreTheAdditions(c: Config, s0: State, ts: seq<Tid>)
    requires Init(s0) && IsRun(c, s0, ts)
    ensures var s := Final(c, s0, ts);
            && (forall i :: 0 <= i < |s.hist| ==> s.hist[i] < |s.threads|)
            && s.db.updates == Additions(s.threads, s.hist, true)
            && s.db.guests == s0.db.guests + Additions(s.threads, s.hist, false)
            && (forall i, j :: 0 <= i < j < |s.hist| ==> s.hist[i] != s.hist[j])
            && (forall t :: 0 <= t < |s.threads| && s.threads[t].pc.Done? ==> t in s.hist)
  {
    Linearizable(c, s0, ts);
    ReplayAdds(c, s0.db.guests, Final(c, s0, ts).threads, Final(c, s0, ts).hist);
  }

  /** A finished add request has returned 0 exactly when its image loads and one face was extracted, which is
      when it is due an entry. */
  lemma SuccessIsAdded(c: Config, s0: State, ts: seq<Tid>, t: Tid)
    requires Init(s0) && IsRun(c, s0, ts) && t < |s0.threads|
    requires Final(c, s0, ts).threads[t].pc.Done? && !Final(c, s0, ts).threads[t].req.Compare?
    ensures var th := Final(c, s0, ts).threads[t];
            && (th.pc.ret == 0 || th.pc.ret == 1)
            && (th.pc.ret == 0 <==> th.req.loads && th.req.extracted)
            && (th.pc.ret == 0 <==> Due(th.req, th.req.AddUser?) != [])
  {
    ReachableInv(c, s0, ts);
    var s := Final(c, s0, ts);
    assert ThreadOk(c, s.db.guests, s.threads[t]);
  }
}
