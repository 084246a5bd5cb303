/** How long pictures stay, over any number of days and on one day. Times of events are instants here; the
    store itself sees only what the clock shows. */
module GuestRetention {
  import opened Bytes
  import opened GuestClock
  import opened GuestStore
  import opened GuestSweep

  function OnClock(e: Event): Event
  {
    match e
    case Query(_) => e
    case Add(id, bytes, addNow, sweepNow) => Add(id, bytes, TimeOfDay(addNow), TimeOfDay(sweepNow))
  }

  function OnClockAll(events: seq<Event>): (shown: seq<Event>)
    ensures |shown| == |events|
    ensures forall i :: 0 <= i < |events| ==> shown[i] == OnClock(events[i])
  {
    seq(|events|, i requires 0 <= i < |events| => OnClock(events[i]))
  }

  /** Time moves forward. */
  predicate InOrder(events: seq<Event>)
  {
    forall i :: 0 <= i < |events| && events[i].Add? ==>
      && events[i].addNow <= events[i].sweepNow
      && forall j :: i < j < |events| && events[j].Add? ==> events[i].sweepNow <= events[j].addNow
  }

  /** A sweep follows the push that triggers it in less than the retention time. */
  predicate Prompt(events: seq<Event>)
  {
    forall i :: 0 <= i < |events| && events[i].Add? ==> !TooOld(events[i].addNow, events[i].sweepNow)
  }

  /** The instant of the last sweep, or 0 if there was none. */
  function LastSweep(events: seq<Event>): nat
  {
    if events == [] then 0 else
      var e := events[|events| - 1];
      if e.Add? then e.sweepNow else LastSweep(events[..|events| - 1])
  }

  function Young(ps: seq<Picture>, now: nat): seq<Picture>
  {
    if ps == [] then [] else
      var p := ps[|ps| - 1];
      Young(ps[..|ps| - 1], now) + if TooOld(p.addTime, now) then [] else [p]
  }

  predicate Sorted(ps: seq<Picture>)
  {
    forall i, j :: 0 <= i < j < |ps| ==> ps[i].addTime <= ps[j].addTime
  }

  lemma {:induction false} LastSweepBounds(events: seq<Event>)
    requires InOrder(events)
    ensures forall i :: 0 <= i < |events| && events[i].Add? ==> events[i].sweepNow <= LastSweep(events)
  {
    if events != [] && !events[|events| - 1].Add? {
      LastSweepBounds(events[..|events| - 1]);
    }
  }

  lemma {:induction false} LastSweepIsASweep(events: seq<Event>)
    ensures LastSweep(events) == 0
         || exists i :: 0 <= i < |events| && events[i].Add? && events[i].sweepNow == LastSweep(events)
  {
    if events != [] && !events[|events| - 1].Add? {
      LastSweepIsASweep(events[..|events| - 1]);
    }
  }

  /** Arrivals are in order of time, and none is later than the last sweep. */
  lemma {:induction false} ArrivedSorted(events: seq<Event>)
    requires InOrder(events)
    ensures Sorted(Arrived(events))
    ensures forall i :: 0 <= i < |Arrived(events)| ==> Arrived(events)[i].addTime <= LastSweep(events)
  {
    if events != [] {
      var earlier, e := events[..|events| - 1], events[|events| - 1];
      ArrivedSorted(earlier);
      if e.Add? {
        LastSweepBounds(earlier);
        assert LastSweep(earlier) <= e.addNow by {
          LastSweepIsASweep(earlier);
        }
      }
    }
  }

  // ----- the run that the clock shows -----

  function Shown(p: Picture): Picture
  {
    p.(addTime := TimeOfDay(p.addTime))
  }

  lemma {:induction false} ArrivedOnClock(events: seq<Event>)
    ensures |Arrived(OnClockAll(events))| == |Arrived(events)|
    ensures forall i :: 0 <= i < |Arrived(events)| ==> Arrived(OnClockAll(events))[i] == Shown(Arrived(events)[i])
  {
    if events != [] {
      var n := |events| - 1;
      ArrivedOnClock(events[..n]);
      assert OnClockAll(events)[..n] == OnClockAll(events[..n]);
    }
  }

  /** The list is what is left of the arrivals, with the times that the clock showed. */
  lemma ListIsTail(events: seq<Event>)
    ensures var st, ps := Run(OnClockAll(events)), Arrived(events);
            && |ps| == |st.heap.freed| + |st.list|
            && forall i :: 0 <= i < |st.list| ==> View(st)[i] == Shown(ps[|st.heap.freed| + i])
  {
    ViewIsTail(OnClockAll(events));
    ArrivedOnClock(events);
  }

  lemma ArrivedNext(earlier: seq<Event>, e: Event)
    ensures Arrived(earlier + [e]) == if e.Add? then Arrived(earlier) + [Picture(e.id, e.bytes, e.addNow)] else Arrived(earlier)
    ensures LastSweep(earlier + [e]) == if e.Add? then e.sweepNow else LastSweep(earlier)
  {
    assert (earlier + [e])[..|earlier|] == earlier;
  }

  lemma RunNext(earlier: seq<Event>, e: Event)
    ensures Run(OnClockAll(earlier + [e])) == Handle(Run(OnClockAll(earlier)), OnClock(e))
  {
    assert OnClockAll(earlier + [e])[..|earlier|] == OnClockAll(earlier);
  }

  // ----- over any number of days -----

  /** No sweep has left the list, and the blocks freed so far are exactly those of the pictures that were
      too old at the last sweep. */
  ghost predicate RightAfter(events: seq<Event>)
  {
    var st, ps := Run(OnClockAll(events)), Arrived(events);
    && st.inBounds
    && forall i :: 0 <= i < |ps| ==> (i < |st.heap.freed| <==> TooOld(ps[i].addTime, LastSweep(events)))
  }

  ghost predicate AlwaysRight(events: seq<Event>)
  {
    forall k :: 0 <= k <= |events| ==> RightAfter(events[..k])
  }

  /** All pictures so far are `ps`; the sweep before was at `last`. */
  predicate SweepOkOn(ps: seq<Picture>, last: nat, now: nat)
    requires ps != []
  {
    && !TooOld(ps[|ps| - 1].addTime, now)
    && (forall i :: 0 <= i < |ps| && !TooOld(ps[i].addTime, last) && TooOld(ps[i].addTime, now) ==>
          TimeOfDay(ps[i].addTime) <= Cutoff(TimeOfDay(now)))
    && (TimeOfDay(now) >= RETAIN
        || exists i :: 0 <= i < |ps| && !TooOld(ps[i].addTime, now) && ps[i].addTime / DAY != now / DAY)
  }

  /** A condition on instants alone: the picture just pushed is young; every picture that has become too
      old since the sweep before shows a time of day at or before the cutoff; and it is at least 00:30, or
      some picture is from another day and still young. */
  predicate SweepOk(earlier: seq<Event>, e: Event)
    requires e.Add?
  {
    Arrived(earlier + [e]) != [] && SweepOkOn(Arrived(earlier + [e]), LastSweep(earlier), e.sweepNow)
  }

  predicate SweepsOk(events: seq<Event>)
  {
    forall k :: 0 <= k < |events| && events[k].Add? ==> SweepOk(events[..k], events[k])
  }

  function TimesOf(ps: seq<Picture>): (times: seq<nat>)
    ensures |times| == |ps| && forall i :: 0 <= i < |ps| ==> times[i] == ps[i].addTime
  {
    seq(|ps|, i requires 0 <= i < |ps| => ps[i].addTime)
  }

  lemma TimesNext(ps: seq<Picture>, p: Picture)
    ensures TimesOf(ps + [p]) == TimesOf(ps) + [p.addTime]
  {
  }

  lemma LaterSweep(earlier: seq<Event>, e: Event)
    requires e.Add? && InOrder(earlier + [e])
    ensures LastSweep(earlier) <= e.addNow
  {
    LastSweepIsASweep(earlier);
    if i :| 0 <= i < |earlier| && earlier[i].Add? && earlier[i].sweepNow == LastSweep(earlier) {
      assert (earlier + [e])[i] == earlier[i] && (earlier + [e])[|earlier|] == e;
    }
  }

  lemma TailTimes(before: Store, ps: seq<Picture>, e: Event, added: nat, times: seq<nat>)
    requires Owned(before) && |ps| == |before.heap.freed| + |before.list|
    requires forall i :: 0 <= i < |before.list| ==> View(before)[i] == Shown(ps[|before.heap.freed| + i])
    requires e.Add? && e.addNow == TimeOfDay(added) && times == TimesOf(ps) + [added]
    ensures var list, d := Pushed(before, e), |before.heap.freed|;
            forall i :: 0 <= i < |list| ==> list[i].addTime == TimeOfDay(times[d + i])
  {
    var list, d := Pushed(before, e), |before.heap.freed|;
    forall i | 0 <= i < |before.list| ensures list[i].addTime == TimeOfDay(times[d + i]) {
      assert View(before)[i].addTime == Shown(ps[d + i]).addTime;
    }
  }

  /** What the sweep after the push of `e` finds: `before` is the state before the push, `times` the instants
      at which all pictures were added, that of `e` included. */
  lemma PushedIsTail(earlier: seq<Event>, e: Event, before: Store, times: seq<nat>)
    requires e.Add? && InOrder(earlier + [e])
    requires before == Run(OnClockAll(earlier)) && times == TimesOf(Arrived(earlier + [e]))
    ensures IsTail(Pushed(before, OnClock(e)), times, |before.heap.freed|)
    ensures times[|times| - 1] == e.addNow <= e.sweepNow
  {
    var ps := Arrived(earlier);
    ArrivedNext(earlier, e);
    ListIsTail(earlier);
    TimesNext(ps, Picture(e.id, e.bytes, e.addNow));
    TailTimes(before, ps, OnClock(e), e.addNow, times);
    ArrivedSorted(earlier + [e]);
    assert (earlier + [e])[|earlier|] == e;
  }

  /** What the sweep does: the state after it in terms of the one before. */
  lemma SweepFrees(earlier: seq<Event>, e: Event, before: Store)
    requires e.Add? && before == Run(OnClockAll(earlier))
    ensures var list, after := Pushed(before, OnClock(e)), Run(OnClockAll(earlier + [e]));
            && |after.heap.freed| == Gone(list, |before.heap.freed|, e.sweepNow)
            && (after.inBounds <==> before.inBounds && !Overruns(list, Cutoff(TimeOfDay(e.sweepNow))))
  {
    RunNext(earlier, e);
    AddFrees(before, OnClock(e));
  }

  lemma RightIsCut(earlier: seq<Event>, e: Event, before: Store, times: seq<nat>)
    requires e.Add? && before == Run(OnClockAll(earlier)) && times == TimesOf(Arrived(earlier + [e]))
    ensures RightAfter(earlier + [e]) <==>
              before.inBounds && CutsRight(Pushed(before, OnClock(e)), times, |before.heap.freed|, e.sweepNow)
  {
    SweepFrees(earlier, e, before);
    ArrivedNext(earlier, e);
    var ps := Arrived(earlier + [e]);
    assert forall i :: 0 <= i < |ps| ==> times[i] == ps[i].addTime;
  }

  /** Whatever has happened before: after a push and its sweep all is right exactly when no sweep had left
      the list and the conditions hold for the pictures that had been freed and those that had not. */
  lemma SweepIsRightExactlyWhen(earlier: seq<Event>, e: Event)
    requires e.Add? && InOrder(earlier + [e])
    ensures var before := Run(OnClockAll(earlier));
            && Arrived(earlier + [e]) != []
            && (RightAfter(earlier + [e]) <==>
                  before.inBounds && CutConditions(TimesOf(Arrived(earlier + [e])), |before.heap.freed|, e.sweepNow))
  {
    var before, times := Run(OnClockAll(earlier)), TimesOf(Arrived(earlier + [e]));
    PushedIsTail(earlier, e, before, times);
    RightIsCut(earlier, e, before, times);
    CutExactlyWhen(Pushed(before, OnClock(e)), times, |before.heap.freed|, e.sweepNow);
  }

  lemma SplitOn(ps: seq<Picture>, d: nat, last: nat, now: nat)
    requires ps != [] && last <= now
    requires forall i :: 0 <= i < |ps| ==> (i < d <==> TooOld(ps[i].addTime, last))
    ensures CutConditions(TimesOf(ps), d, now) <==> SweepOkOn(ps, last, now)
  {
    var times := TimesOf(ps);
    assert forall i :: 0 <= i < |ps| ==> times[i] == ps[i].addTime;
    if SweepOkOn(ps, last, now) && TimeOfDay(now) < RETAIN {
      var i :| 0 <= i < |ps| && !TooOld(ps[i].addTime, now) && ps[i].addTime / DAY != now / DAY;
      assert times[i] / DAY != now / DAY;
    }
  }

  /** The pictures that were too old at the sweep before are the `d` that it had freed. */
  lemma SplitCondition(earlier: seq<Event>, e: Event, d: nat)
    requires e.Add? && InOrder(earlier + [e]) && RightAfter(earlier)
    requires d == |Run(OnClockAll(earlier)).heap.freed| <= |Arrived(earlier)| < |Arrived(earlier + [e])|
    ensures CutConditions(TimesOf(Arrived(earlier + [e])), d, e.sweepNow) <==> SweepOk(earlier, e)
  {
    ArrivedNext(earlier, e);
    LaterSweep(earlier, e);
    assert (earlier + [e])[|earlier|] == e;
    var ps := Arrived(earlier + [e]);
    forall i | 0 <= i < |ps| ensures i < d <==> TooOld(ps[i].addTime, LastSweep(earlier)) {
      assert i < |Arrived(earlier)| ==> ps[i] == Arrived(earlier)[i];
    }
    SplitOn(ps, d, LastSweep(earlier), e.sweepNow);
  }

  /** As long as all sweeps have been right, that is a condition on the instants alone. */
  lemma NextSweep(earlier: seq<Event>, e: Event)
    requires e.Add? && InOrder(earlier + [e]) && RightAfter(earlier)
    ensures RightAfter(earlier + [e]) <==> SweepOk(earlier, e)
  {
    ArrivedNext(earlier, e);
    ListIsTail(earlier);
    SweepIsRightExactlyWhen(earlier, e);
    SplitCondition(earlier, e, |Run(OnClockAll(earlier)).heap.freed|);
  }

  lemma NextQuery(earlier: seq<Event>, e: Event)
    requires e.Query?
    ensures RightAfter(earlier + [e]) <==> RightAfter(earlier)
  {
    RunNext(earlier, e);
    ArrivedNext(earlier, e);
  }

  lemma AlwaysRightNext(earlier: seq<Event>, e: Event)
    ensures AlwaysRight(earlier + [e]) <==> AlwaysRight(earlier) && RightAfter(earlier + [e])
  {
    var events := earlier + [e];
    assert events[..|events|] == events;
    forall k | 0 <= k <= |earlier| ensures events[..k] == earlier[..k] {
    }
    if AlwaysRight(events) {
      forall k | 0 <= k <= |earlier| ensures RightAfter(earlier[..k]) {
        assert RightAfter(events[..k]);
      }
      assert RightAfter(events[..|events|]);
    }
  }

  lemma SweepsOkNext(earlier: seq<Event>, e: Event)
    ensures SweepsOk(earlier + [e]) <==> SweepsOk(earlier) && (e.Add? ==> SweepOk(earlier, e))
  {
    var events := earlier + [e];
    assert events[..|earlier|] == earlier && events[|earlier|] == e;
    forall k | 0 <= k < |earlier| ensures events[..k] == earlier[..k] && events[k] == earlier[k] {
    }
    if SweepsOk(events) {
      forall k | 0 <= k < |earlier| && earlier[k].Add? ensures SweepOk(earlier[..k], earlier[k]) {
        assert events[k].Add?;
      }
      if e.Add? {
        assert SweepOk(events[..|earlier|], events[|earlier|]);
      }
    }
  }

  /** Over any run, however long: every sweep has kept exactly the young pictures and stayed inside the
      list if and only if each met the condition. */
  lemma {:induction false} RetentionOverDays(events: seq<Event>)
    requires InOrder(events)
    ensures AlwaysRight(events) <==> SweepsOk(events)
  {
    if events == [] {
      assert events[..0] == [] && Run(OnClockAll([])) == EMPTY_STORE;
    } else {
      var n := |events| - 1;
      var earlier, e := events[..n], events[n];
      assert events == earlier + [e];
      RetentionOverDays(earlier);
      AlwaysRightNext(earlier, e);
      SweepsOkNext(earlier, e);
      if AlwaysRight(earlier) {
        assert earlier[..n] == earlier;
        if e.Add? {
          NextSweep(earlier, e);
        } else {
          NextQuery(earlier, e);
        }
      }
    }
  }

  lemma LastOfSuffix(ps: seq<Picture>, k: nat)
    requires k < |ps|
    ensures ps[k..] == ps[..|ps| - 1][k..] + [ps[|ps| - 1]]
  {
  }

  /** Where age cuts a sequence in two, keeping the young entries is dropping the first `k`. */
  lemma {:induction false} YoungIsSuffix(ps: seq<Picture>, now: nat, k: nat)
    requires k <= |ps|
    requires forall i :: 0 <= i < |ps| ==> (i < k <==> TooOld(ps[i].addTime, now))
    ensures Young(ps, now) == ps[k..]
  {
    if ps != [] {
      var front, last := ps[..|ps| - 1], ps[|ps| - 1];
      if k == |ps| {
        YoungIsSuffix(front, now, k - 1);
      } else {
        YoungIsSuffix(front, now, k);
        LastOfSuffix(ps, k);
      }
    }
  }

  /** What the list then holds: the young pictures, in order of arrival. */
  lemma RightMeansYoung(events: seq<Event>)
    requires InOrder(events) && RightAfter(events)
    ensures var st := Run(OnClockAll(events));
            var young := Young(Arrived(events), LastSweep(events));
            && |st.list| == |young|
            && forall i :: 0 <= i < |young| ==> View(st)[i] == Shown(young[i])
  {
    ListIsTail(events);
    var d := |Run(OnClockAll(events)).heap.freed|;
    var ps, young := Arrived(events), Young(Arrived(events), LastSweep(events));
    YoungIsSuffix(ps, LastSweep(events), d);
    assert forall i :: 0 <= i < |young| ==> young[i] == ps[d + i];
  }

  // ----- on one day -----

  /** All of it within one day, with the clock showing at least 00:30 at every sweep. */
  predicate OneDay(events: seq<Event>)
  {
    InOrder(events) && Prompt(events) && forall i :: 0 <= i < |events| && events[i].Add? ==> RETAIN <= events[i].sweepNow < DAY
  }

  lemma OneDayIsShown(events: seq<Event>)
    requires OneDay(events)
    ensures OnClockAll(events) == events
  {
    forall i | 0 <= i < |events| ensures OnClock(events[i]) == events[i] {
      if events[i].Add? {
        assert events[i].addNow <= events[i].sweepNow < DAY;
      }
    }
  }

  lemma OneDaySweepsOk(events: seq<Event>)
    requires OneDay(events)
    ensures SweepsOk(events)
  {
    forall k | 0 <= k < |events| && events[k].Add? ensures SweepOk(events[..k], events[k]) {
      assert events[..k] + [events[k]] == events[..k + 1];
      var ps, now := Arrived(events[..k + 1]), events[k].sweepNow;
      ArrivedSorted(events[..k + 1]);
      LastSweepBounds(events[..k + 1]);
      assert LastSweep(events[..k + 1]) == now;
    }
  }

  /** The blocks freed so far are exactly those of the pictures that were too old at the last sweep. */
  lemma FreedAreTheOld(events: seq<Event>)
    requires OneDay(events)
    ensures Run(events).inBounds
    ensures |Run(events).heap.freed| <= |Arrived(events)|
    ensures forall i :: 0 <= i < |Arrived(events)| ==>
              (i < |Run(events).heap.freed| <==> TooOld(Arrived(events)[i].addTime, LastSweep(events)))
  {
    OneDayIsShown(events);
    OneDaySweepsOk(events);
    RetentionOverDays(events);
    assert events[..|events|] == events;
    assert RightAfter(events[..|events|]);
    ListIsTail(events);
  }

  /** After any run on one day the sweep loop has never left the list, and the list holds exactly those
      of all the pictures ever received that were young at the last sweep, sorted and in order. */
  lemma RetentionOnOneDay(events: seq<Event>)
    requires OneDay(events)
    ensures Run(events).inBounds
    ensures View(Run(events)) == Young(Arrived(events), LastSweep(events))
    ensures Sorted(View(Run(events)))
  {
    OwnershipIsConserved(events);
    FreedAreTheOld(events);
    ArrivedSorted(events);
    YoungIsSuffix(Arrived(events), LastSweep(events), |Run(events).heap.freed|);
  }

  // ----- leaving the list -----

  /** Some entry, the one just pushed included, shows a later time than the cutoff. */
  predicate Stops(st: Store, e: Event)
    requires e.Add?
  {
    !Overruns(Pushed(st, e), Cutoff(e.sweepNow))
  }

  ghost predicate AllStop(events: seq<Event>)
  {
    forall k :: 0 <= k < |events| && events[k].Add? ==> Stops(Run(events[..k]), events[k])
  }

  lemma AllStopNext(earlier: seq<Event>, e: Event)
    ensures AllStop(earlier + [e]) <==> AllStop(earlier) && (e.Add? ==> Stops(Run(earlier), e))
  {
    var events := earlier + [e];
    assert events[..|earlier|] == earlier && events[|earlier|] == e;
    forall k | 0 <= k < |earlier| ensures events[..k] == earlier[..k] && events[k] == earlier[k] {
    }
    if AllStop(events) {
      forall k | 0 <= k < |earlier| && earlier[k].Add? ensures Stops(Run(earlier[..k]), earlier[k]) {
        assert events[k].Add?;
      }
      if e.Add? {
        assert Stops(Run(events[..|earlier|]), events[|earlier|]);
      }
    }
  }

  /** For events as the clock shows them, whatever it shows: no sweep has left the list exactly when every
      sweep found an entry later than its cutoff. */
  lemma {:induction false} StaysInListExactlyWhen(events: seq<Event>)
    ensures Run(events).inBounds <==> AllStop(events)
  {
    if events != [] {
      var n := |events| - 1;
      var earlier, e := events[..n], events[n];
      assert events == earlier + [e];
      StaysInListExactlyWhen(earlier);
      AllStopNext(earlier, e);
      if e.Add? {
        AddFrees(Run(earlier), e);
      }
    }
  }

  /** For instants: a sweep can leave the list only before 00:30, and does so exactly when neither the
      picture just pushed is from the day before nor an older entry shows a time after the cutoff. */
  lemma StopsExactlyWhen(earlier: seq<Event>, e: Event)
    requires e.Add? && e.addNow <= e.sweepNow && !TooOld(e.addNow, e.sweepNow)
    ensures var st, cutoff := Run(OnClockAll(earlier)), Cutoff(TimeOfDay(e.sweepNow));
            Stops(st, OnClock(e)) <==>
              || TimeOfDay(e.sweepNow) >= RETAIN || e.addNow / DAY != e.sweepNow / DAY
              || exists i :: 0 <= i < |st.list| && st.list[i].addTime > cutoff
  {
    var st := Run(OnClockAll(earlier));
    var list := Pushed(st, OnClock(e));
    YoungStays(e.addNow, e.sweepNow);
    assert list[|st.list|].addTime == TimeOfDay(e.addNow);
    if i :| 0 <= i < |st.list| && st.list[i].addTime > Cutoff(TimeOfDay(e.sweepNow)) {
      assert list[i] == st.list[i];
    }
  }

  lemma RunOne(e: Event)
    ensures Run([e]) == Handle(EMPTY_STORE, e)
  {
    assert [e][..0] == [] && Run([]) == EMPTY_STORE;
  }

  lemma LastExpires(list: seq<GuestPic>, addNow: nat, sweepNow: nat)
    requires |list| == 1 && list[0].addTime == addNow <= sweepNow < DAY
    ensures Overruns(list, Cutoff(sweepNow)) <==> sweepNow < RETAIN || TooOld(addNow, sweepNow)
  {
    assert Overruns(list, Cutoff(sweepNow)) <==> list[0].addTime <= Cutoff(sweepNow);
  }

  /** The very first picture: the sweep that follows its arrival leaves the list exactly when the clock
      shows less than 00:30, or the picture is already out of date; and then it has freed it. */
  lemma FirstSweep(id: int, bytes: seq<Byte>, addNow: nat, sweepNow: nat)
    requires addNow <= sweepNow < DAY
    ensures !Run([Add(id, bytes, addNow, sweepNow)]).inBounds <==> sweepNow < RETAIN || TooOld(addNow, sweepNow)
    ensures !Run([Add(id, bytes, addNow, sweepNow)]).inBounds <==> Run([Add(id, bytes, addNow, sweepNow)]).list == []
  {
    var e := Add(id, bytes, addNow, sweepNow);
    RunOne(e);
    AddFrees(EMPTY_STORE, e);
    LastExpires(Pushed(EMPTY_STORE, e), addNow, sweepNow);
  }

  /** A picture that arrives in the first half hour of the day at a server without pictures is freed at
      once, by a sweep that leaves the list. */
  lemma MidnightOverrun(id: int, bytes: seq<Byte>, t: nat)
    requires t < RETAIN
    ensures !Run([Add(id, bytes, t, t)]).inBounds && Run([Add(id, bytes, t, t)]).list == []
  {
    FirstSweep(id, bytes, t, t);
  }

  // ----- what goes wrong -----

  /** The sweep after the push of `e` frees a picture that is still young. */
  ghost predicate LosesYoung(earlier: seq<Event>, e: Event)
    requires e.Add?
  {
    var ps, before, after := Arrived(earlier + [e]), Run(OnClockAll(earlier)), Run(OnClockAll(earlier + [e]));
    exists i :: |before.heap.freed| <= i < |after.heap.freed| && i < |ps| && !TooOld(ps[i].addTime, e.sweepNow)
  }

  /** The sweep after the push of `e` leaves a picture that is too old. */
  ghost predicate LeavesOld(earlier: seq<Event>, e: Event)
    requires e.Add?
  {
    var ps, after := Arrived(earlier + [e]), Run(OnClockAll(earlier + [e]));
    exists i :: |after.heap.freed| <= i < |ps| && TooOld(ps[i].addTime, e.sweepNow)
  }

  /** Whatever has happened before: a sweep frees a young picture exactly when it leaves the list and the
      picture just pushed is young; it then frees that one too. */
  lemma LosesYoungExactlyWhen(earlier: seq<Event>, e: Event)
    requires e.Add? && InOrder(earlier + [e])
    ensures LosesYoung(earlier, e) <==>
              !Stops(Run(OnClockAll(earlier)), OnClock(e)) && !TooOld(e.addNow, e.sweepNow)
    ensures !Stops(Run(OnClockAll(earlier)), OnClock(e)) ==> Run(OnClockAll(earlier + [e])).list == []
  {
    var before, times := Run(OnClockAll(earlier)), TimesOf(Arrived(earlier + [e]));
    PushedIsTail(earlier, e, before, times);
    SweepFrees(earlier, e, before);
    RunNext(earlier, e);
    AddFrees(before, OnClock(e));
    YoungIsFreedExactlyWhen(Pushed(before, OnClock(e)), times, |before.heap.freed|, e.sweepNow);
    assert forall i :: 0 <= i < |times| ==> times[i] == Arrived(earlier + [e])[i].addTime;
  }

  /** Whatever has happened before: a sweep leaves an old picture exactly when some old picture in the list
      shows a time of day after the cutoff. */
  lemma LeavesOldExactlyWhen(earlier: seq<Event>, e: Event)
    requires e.Add? && InOrder(earlier + [e])
    ensures var ps, d, now := Arrived(earlier + [e]), |Run(OnClockAll(earlier)).heap.freed|, e.sweepNow;
            LeavesOld(earlier, e) <==>
              exists i :: d <= i < |ps| && TooOld(ps[i].addTime, now) && TimeOfDay(ps[i].addTime) > Cutoff(TimeOfDay(now))
  {
    var before, times := Run(OnClockAll(earlier)), TimesOf(Arrived(earlier + [e]));
    PushedIsTail(earlier, e, before, times);
    SweepFrees(earlier, e, before);
    OldIsLeftExactlyWhen(Pushed(before, OnClock(e)), times, |before.heap.freed|, e.sweepNow);
    assert forall i :: 0 <= i < |times| ==> times[i] == Arrived(earlier + [e])[i].addTime;
  }

  ghost predicate NeverLosesYoung(events: seq<Event>)
  {
    forall k :: 0 <= k < |events| && events[k].Add? ==> !LosesYoung(events[..k], events[k])
  }

  lemma InOrderPrefix(events: seq<Event>, k: nat)
    requires InOrder(events) && k < |events|
    ensures InOrder(events[..k] + [events[k]])
  {
    var some := events[..k] + [events[k]];
    assert forall i :: 0 <= i < |some| ==> some[i] == events[i];
  }

  lemma StopsEverywhere(events: seq<Event>, shown: seq<Event>)
    requires shown == OnClockAll(events)
    requires forall k :: 0 <= k < |events| && events[k].Add? ==>
               (!LosesYoung(events[..k], events[k]) <==> Stops(Run(shown[..k]), shown[k]))
    ensures NeverLosesYoung(events) <==> AllStop(shown)
  {
    assert forall k :: 0 <= k < |events| ==> (events[k].Add? <==> shown[k].Add?);
  }

  /** Over any number of days, with prompt sweeps: no picture was ever freed young exactly when no sweep has
      ever left the list. */
  lemma YoungAreKeptExactlyWhen(events: seq<Event>)
    requires InOrder(events) && Prompt(events)
    ensures NeverLosesYoung(events) <==> Run(OnClockAll(events)).inBounds
  {
    var shown := OnClockAll(events);
    StaysInListExactlyWhen(shown);
    forall k | 0 <= k < |events| && events[k].Add?
      ensures !LosesYoung(events[..k], events[k]) <==> Stops(Run(shown[..k]), shown[k])
    {
      assert shown[..k] == OnClockAll(events[..k]);
      InOrderPrefix(events, k);
      LosesYoungExactlyWhen(events[..k], events[k]);
    }
    StopsEverywhere(events, shown);
  }

  // ----- an entry that is not passed -----

  /** Every cutoff in `more` is before the time of day `t`. */
  predicate CutoffsBefore(more: seq<Event>, t: nat)
  {
    forall i :: 0 <= i < |more| && more[i].Add? ==> Cutoff(more[i].sweepNow) < t
  }

  lemma CutoffsBeforeNext(more: seq<Event>, t: nat)
    requires more != []
    ensures var n := |more| - 1;
            CutoffsBefore(more, t) <==>
              CutoffsBefore(more[..n], t) && (more[n].Add? ==> Cutoff(more[n].sweepNow) < t)
  {
    var n := |more| - 1;
    assert forall i :: 0 <= i < n ==> more[..n][i] == more[i];
  }

  /** `st'` is a later state in which the first entry of `st` is still the first. */
  predicate SameFirst(st: Store, st': Store)
  {
    && |st'.heap.freed| == |st.heap.freed|
    && st.list != [] && st'.list != [] && st'.list[0] == st.list[0]
  }

  lemma FirstEntryNext(st: Store, mid: Store, e: Event)
    requires Owned(mid) && st.list != [] && |st.heap.freed| <= |mid.heap.freed|
    requires |st.heap.freed| == |mid.heap.freed| ==> SameFirst(st, mid)
    ensures |st.heap.freed| <= |Handle(mid, e).heap.freed|
    ensures |st.heap.freed| == |Handle(mid, e).heap.freed| ==> SameFirst(st, Handle(mid, e))
    ensures SameFirst(st, Handle(mid, e)) <==>
              SameFirst(st, mid) && (e.Add? ==> Cutoff(e.sweepNow) < st.list[0].addTime)
  {
    if e.Add? {
      AddFrees(mid, e);
      var list, cutoff := Pushed(mid, e), Cutoff(e.sweepNow);
      assert Expired(list, cutoff) == 0 <==> list[0].addTime > cutoff;
    }
  }

  lemma {:induction false} RunSplit(events: seq<Event>, more: seq<Event>)
    requires more != []
    ensures Run(events + more) == Handle(Run(events + more[..|more| - 1]), more[|more| - 1])
  {
    assert (events + more)[..|events| + |more| - 1] == events + more[..|more| - 1];
  }

  /** What the events `more` do to the first entry on the way from `st` to `st'`. */
  predicate FirstIsKept(st: Store, st': Store, more: seq<Event>)
    requires st.list != []
  {
    && |st.heap.freed| <= |st'.heap.freed|
    && (|st.heap.freed| == |st'.heap.freed| ==> SameFirst(st, st'))
    && (SameFirst(st, st') <==> CutoffsBefore(more, st.list[0].addTime))
  }

  lemma FirstIsKeptNext(st: Store, mid: Store, more: seq<Event>)
    requires Owned(mid) && st.list != [] && more != [] && FirstIsKept(st, mid, more[..|more| - 1])
    ensures FirstIsKept(st, Handle(mid, more[|more| - 1]), more)
  {
    FirstEntryNext(st, mid, more[|more| - 1]);
    CutoffsBeforeNext(more, st.list[0].addTime);
  }

  lemma {:induction false} FirstEntryStays(events: seq<Event>, more: seq<Event>)
    requires Run(events).list != []
    ensures FirstIsKept(Run(events), Run(events + more), more)
  {
    if more == [] {
      assert events + more == events;
    } else {
      FirstEntryStays(events, more[..|more| - 1]);
      RunSplit(events, more);
      FirstIsKeptNext(Run(events), Run(events + more[..|more| - 1]), more);
    }
  }

  lemma SameFreed(a: Store, b: Store)
    requires Owned(a) && Owned(b)
    ensures a.heap.freed == b.heap.freed <==> |a.heap.freed| == |b.heap.freed|
  {
  }

  /** Nothing more is freed exactly as long as the first entry shows a later time than every cutoff. */
  lemma FirstEntryBlocksExactlyWhile(events: seq<Event>, more: seq<Event>)
    requires Run(events).list != []
    ensures Run(events + more).heap.freed == Run(events).heap.freed <==>
              forall i :: 0 <= i < |more| && more[i].Add? ==> Cutoff(more[i].sweepNow) < Run(events).list[0].addTime
    ensures Run(events + more).heap.freed == Run(events).heap.freed ==>
              Run(events + more).list != [] && Run(events + more).list[0] == Run(events).list[0]
  {
    FirstEntryStays(events, more);
    SameFreed(Run(events), Run(events + more));
    assert CutoffsBefore(more, Run(events).list[0].addTime) <==>
             forall i :: 0 <= i < |more| && more[i].Add? ==> Cutoff(more[i].sweepNow) < Run(events).list[0].addTime;
  }

  /** With the clock at 00:30 or later, an entry at the front blocks every sweep until half an hour past
      the time of day it shows; one from 23:30 or later blocks them all. */
  lemma StaleEntryBlocks(events: seq<Event>, more: seq<Event>)
    requires Run(events).list != []
    requires forall i :: 0 <= i < |more| && more[i].Add? ==> RETAIN <= more[i].sweepNow < DAY
    ensures Run(events + more).heap.freed == Run(events).heap.freed <==>
              forall i :: 0 <= i < |more| && more[i].Add? ==> more[i].sweepNow < Run(events).list[0].addTime + RETAIN
    ensures Run(events).list[0].addTime >= DAY - RETAIN ==>
              Run(events + more).heap.freed == Run(events).heap.freed
  {
    FirstEntryBlocksExactlyWhile(events, more);
    forall i | 0 <= i < |more| && more[i].Add?
      ensures Cutoff(more[i].sweepNow) < Run(events).list[0].addTime
         <==> more[i].sweepNow < Run(events).list[0].addTime + RETAIN
    {
      CutoffOnOneDay(Run(events).list[0].addTime, more[i].sweepNow);
    }
  }

  lemma RunTwo(e: Event, f: Event)
    ensures Run([e, f]) == Handle(Run([e]), f)
  {
    assert [e, f][..1] == [e];
  }

  lemma TwoArrived(e: Event, f: Event)
    requires e.Add? && f.Add?
    ensures Arrived([e, f]) == [Picture(e.id, e.bytes, e.addNow), Picture(f.id, f.bytes, f.addNow)]
    ensures LastSweep([e, f]) == f.sweepNow
  {
    assert [e, f][..1] == [e] && [e][..0] == [];
    assert Arrived([e]) == [] + [Picture(e.id, e.bytes, e.addNow)];
  }

  /** Two pushes, the cutoff of each sweep before the time of the first. */
  lemma BothStay(e: Event, f: Event)
    requires e.Add? && f.Add? && Cutoff(e.sweepNow) < e.addNow && Cutoff(f.sweepNow) < e.addNow
    ensures var st := Run([e, f]);
            st.inBounds && |st.list| == 2 && st.list[0].addTime == e.addNow && |st.heap.freed| == 0
  {
    RunOne(e);
    AddFrees(EMPTY_STORE, e);
    var one := Pushed(EMPTY_STORE, e);
    assert one[0].addTime == e.addNow && Expired(one, Cutoff(e.sweepNow)) == 0;
    assert Run([e]).list == one;
    RunTwo(e, f);
    AddFrees(Run([e]), f);
    var both := Pushed(Run([e]), f);
    assert both[0].addTime == e.addNow && Expired(both, Cutoff(f.sweepNow)) == 0;
    assert Run([e, f]).list == both;
  }

  /** Such entries arise: a picture from 00:30 or later and a second one on the next day, at 00:30 or later
      but less than half an hour past the time of day of the first. No sweep leaves the list, and the first
      picture, about a day old by then, is still in it. */
  lemma OutlivesTheDay(first: Picture, second: Picture)
    requires RETAIN <= first.addTime < DAY
    requires DAY + RETAIN <= second.addTime < 2 * DAY && second.addTime < DAY + first.addTime + RETAIN
    ensures var events := [Add(first.id, first.bytes, first.addTime, first.addTime),
                           Add(second.id, second.bytes, second.addTime, second.addTime)];
            var st := Run(OnClockAll(events));
            && InOrder(events) && Prompt(events) && st.inBounds
            && |st.list| == 2 && st.list[0].addTime == first.addTime && st.heap.freed == []
            && TooOld(first.addTime, LastSweep(events)) && !RightAfter(events)
  {
    var e := Add(first.id, first.bytes, first.addTime, first.addTime);
    var f := Add(second.id, second.bytes, second.addTime, second.addTime);
    assert OnClockAll([e, f]) == [e, OnClock(f)];
    CutoffOnOneDay(first.addTime, TimeOfDay(second.addTime));
    BothStay(e, OnClock(f));
    TwoArrived(e, f);
    assert Arrived([e, f])[0].addTime == first.addTime;
  }

  /** One picture at noon and another at 01:00 of the next day. */
  lemma NoonPictureStays(bytes: seq<Byte>)
    ensures var noon, night := 12 * 3_600_000, DAY + 3_600_000;
            var events := [Add(1, bytes, noon, noon), Add(2, bytes, night, night)];
            var st := Run(OnClockAll(events));
            InOrder(events) && st.inBounds && |st.list| == 2 && TooOld(noon, night) && !RightAfter(events)
  {
    OutlivesTheDay(Picture(1, bytes, 12 * 3_600_000), Picture(2, bytes, DAY + 3_600_000));
  }

  /** A picture from 12:00 and a second one later that day, each swept at once: the first is still there
      until 12:30 and gone from then on. At 12:25 it is kept. */
  lemma KeptForHalfAnHour(bytes: seq<Byte>, t: nat)
    requires 43_200_000 <= t < 86_400_000
    ensures var st := Run([Add(1, bytes, 43_200_000, 43_200_000), Add(2, bytes, t, t)]);
            var first, second := Picture(1, bytes, 43_200_000), Picture(2, bytes, t);
            && st.inBounds
            && (t < 45_000_000 ==> View(st) == [first, second])
            && (t >= 45_000_000 ==> View(st) == [second])
  {
    var e, f := Add(1, bytes, 43_200_000, 43_200_000), Add(2, bytes, t, t);
    var first, second := Picture(1, bytes, 43_200_000), Picture(2, bytes, t);
    var ps, k := [first, second], if t < 45_000_000 then 0 else 1;
    assert Arrived([e, f]) == ps && LastSweep([e, f]) == t by { TwoArrived(e, f); }
    assert Young(ps, t) == ps[k..] by { YoungIsSuffix(ps, t, k); }
    assert Run([e, f]).inBounds && View(Run([e, f])) == Young(ps, t) by { RetentionOnOneDay([e, f]); }
    assert ps[0..] == [first, second] && ps[1..] == [second];
  }
}
