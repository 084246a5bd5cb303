/** One sweep of the picture list, judged by the instants at which its entries were added. */
module GuestSweep {
  import opened GuestClock
  import opened GuestStore

  // ----- one entry -----

  lemma OneEntryAcrossMidnight(added: nat, now: nat)
    requires added <= now < added + DAY
    ensures added / DAY == now / DAY || added / DAY + 1 == now / DAY
    ensures TimeOfDay(added) <= Cutoff(TimeOfDay(now)) <==>
              if added / DAY == now / DAY
              then TimeOfDay(now) < RETAIN || TooOld(added, now)
              else TimeOfDay(now) < RETAIN && TooOld(added, now)
    ensures added / DAY != now / DAY && TimeOfDay(now) >= RETAIN ==> TooOld(added, now)
  {
    assert now == DAY * (now / DAY) + TimeOfDay(now) && added == DAY * (added / DAY) + TimeOfDay(added);
  }

  /** A young picture shows a later time than the cutoff exactly when it is at least 00:30 now or the
      picture is from another day. */
  lemma YoungStays(added: nat, now: nat)
    requires added <= now
    ensures !TooOld(added, now) ==>
              (TimeOfDay(added) > Cutoff(TimeOfDay(now)) <==> TimeOfDay(now) >= RETAIN || added / DAY != now / DAY)
  {
    if !TooOld(added, now) {
      OneEntryAcrossMidnight(added, now);
    }
  }

  lemma DaysInOrder(a: nat, b: nat, now: nat)
    ensures a <= b <= now && b / DAY != now / DAY ==> a / DAY != now / DAY
  {
  }

  // ----- the list -----

  /** `list` holds what is left of the pictures added at `times`, after the first `d` were freed. */
  predicate IsTail(list: seq<GuestPic>, times: seq<nat>, d: nat)
  {
    && list != [] && |times| == d + |list|
    && (forall i :: 0 <= i < |list| ==> list[i].addTime == TimeOfDay(times[d + i]))
    && (forall i, j :: 0 <= i < j < |times| ==> times[i] <= times[j])
  }

  /** How many of the pictures ever added are gone after the sweep at `now`. */
  function Gone(list: seq<GuestPic>, d: nat, now: nat): nat
  {
    d + Expired(list, Cutoff(TimeOfDay(now)))
  }

  /** The sweep stops inside the list, and then exactly the pictures that are too old are gone. */
  predicate CutsRight(list: seq<GuestPic>, times: seq<nat>, d: nat, now: nat)
  {
    && !Overruns(list, Cutoff(TimeOfDay(now)))
    && forall i :: 0 <= i < |times| ==> (i < Gone(list, d, now) <==> TooOld(times[i], now))
  }

  /** The newest picture is young and no young one had been freed; all old ones still there show a time up
      to the cutoff; and it is at least 00:30, or a young picture is from another day. */
  predicate CutConditions(times: seq<nat>, d: nat, now: nat)
    requires times != []
  {
    && !TooOld(times[|times| - 1], now)
    && (forall i :: 0 <= i < d && i < |times| ==> TooOld(times[i], now))
    && (forall i :: d <= i < |times| && TooOld(times[i], now) ==> TimeOfDay(times[i]) <= Cutoff(TimeOfDay(now)))
    && (TimeOfDay(now) >= RETAIN
        || exists i :: 0 <= i < |times| && !TooOld(times[i], now) && times[i] / DAY != now / DAY)
  }

  lemma PassedOrNot(list: seq<GuestPic>, times: seq<nat>, d: nat, now: nat)
    requires IsTail(list, times, d)
    ensures forall i :: d <= i < Gone(list, d, now) ==> TimeOfDay(times[i]) <= Cutoff(TimeOfDay(now))
    ensures !Overruns(list, Cutoff(TimeOfDay(now))) <==> Gone(list, d, now) < |times|
    ensures Gone(list, d, now) < |times| ==> TimeOfDay(times[Gone(list, d, now)]) > Cutoff(TimeOfDay(now))
  {
    forall i | d <= i < |times| ensures TimeOfDay(times[i]) == list[i - d].addTime {
      assert list[i - d].addTime == TimeOfDay(times[d + (i - d)]);
    }
  }

  /** Before 00:30 a picture that shows a time after the cutoff is not from today. */
  lemma LateTodayIsLater(a: nat, b: nat, now: nat)
    requires a <= b <= now && TimeOfDay(a) <= Cutoff(TimeOfDay(now)) < TimeOfDay(b)
    ensures a / DAY == now / DAY ==> TimeOfDay(now) >= RETAIN
  {
    assert now == DAY * (now / DAY) + TimeOfDay(now) && b == DAY * (b / DAY) + TimeOfDay(b);
    DaysInOrder(a, b, now);
  }

  /** The sweep frees a young picture exactly when it leaves the list and the newest picture is young. */
  lemma YoungIsFreedExactlyWhen(list: seq<GuestPic>, times: seq<nat>, d: nat, now: nat)
    requires IsTail(list, times, d) && times[|times| - 1] <= now
    ensures (exists i :: d <= i < Gone(list, d, now) && !TooOld(times[i], now))
       <==> Overruns(list, Cutoff(TimeOfDay(now))) && !TooOld(times[|times| - 1], now)
  {
    var gone, last := Gone(list, d, now), |times| - 1;
    PassedOrNot(list, times, d, now);
    forall i | d <= i < gone && gone <= last ensures TooOld(times[i], now) {
      assert times[i] <= times[gone] <= times[last];
      YoungStays(times[i], now);
      YoungStays(times[gone], now);
      DaysInOrder(times[i], times[gone], now);
      LateTodayIsLater(times[i], times[gone], now);
    }
    forall i | d <= i < |times| && !TooOld(times[i], now) ensures !TooOld(times[last], now) {
      assert times[i] <= times[last];
    }
  }

  /** The sweep leaves an old picture in the list exactly when some old picture shows a time after the
      cutoff. */
  lemma OldIsLeftExactlyWhen(list: seq<GuestPic>, times: seq<nat>, d: nat, now: nat)
    requires IsTail(list, times, d)
    ensures (exists i :: Gone(list, d, now) <= i < |times| && TooOld(times[i], now))
       <==> exists i :: d <= i < |times| && TooOld(times[i], now) && TimeOfDay(times[i]) > Cutoff(TimeOfDay(now))
  {
    var gone := Gone(list, d, now);
    PassedOrNot(list, times, d, now);
    if i :| gone <= i < |times| && TooOld(times[i], now) {
      assert times[gone] <= times[i];
      assert TooOld(times[gone], now);
    }
  }

  lemma StaysInside(list: seq<GuestPic>, times: seq<nat>, d: nat, now: nat)
    requires IsTail(list, times, d) && times[|times| - 1] <= now && CutConditions(times, d, now)
    ensures !Overruns(list, Cutoff(TimeOfDay(now)))
  {
    var last := |times| - 1;
    PassedOrNot(list, times, d, now);
    if TimeOfDay(now) < RETAIN {
      var i :| 0 <= i < |times| && !TooOld(times[i], now) && times[i] / DAY != now / DAY;
      assert times[i] <= times[last];
      YoungStays(times[i], now);
    }
    YoungStays(times[last], now);
  }

  /** For any list: the sweep cuts exactly between old and young, inside the list, if and only if the
      conditions hold. */
  lemma CutExactlyWhen(list: seq<GuestPic>, times: seq<nat>, d: nat, now: nat)
    requires IsTail(list, times, d) && times[|times| - 1] <= now
    ensures CutsRight(list, times, d, now) <==> CutConditions(times, d, now)
  {
    var gone, last := Gone(list, d, now), |times| - 1;
    PassedOrNot(list, times, d, now);
    YoungIsFreedExactlyWhen(list, times, d, now);
    OldIsLeftExactlyWhen(list, times, d, now);
    if CutsRight(list, times, d, now) {
      assert times[gone] <= times[last];
      assert !TooOld(times[gone], now);
      YoungStays(times[gone], now);
    }
    if CutConditions(times, d, now) {
      StaysInside(list, times, d, now);
      forall i | 0 <= i < |times| ensures i < gone <==> TooOld(times[i], now) {
      }
    }
  }

  /** A sweep just after a push, on any list less than a day old, is right exactly when it is at least
      00:30 and nothing was added yesterday, or it is earlier and something added yesterday is young. */
  lemma SweepAcrossMidnight(list: seq<GuestPic>, times: seq<nat>, now: nat)
    requires IsTail(list, times, 0)
    requires forall i :: 0 <= i < |times| ==> times[i] <= now < times[i] + DAY
    requires !TooOld(times[|times| - 1], now)
    ensures CutsRight(list, times, 0, now) <==>
              if TimeOfDay(now) >= RETAIN
              then forall i :: 0 <= i < |times| ==> times[i] / DAY == now / DAY
              else exists i :: 0 <= i < |times| && times[i] / DAY != now / DAY && !TooOld(times[i], now)
  {
    CutExactlyWhen(list, times, 0, now);
    forall i | 0 <= i < |times|
      ensures TooOld(times[i], now) ==>
                (TimeOfDay(times[i]) <= Cutoff(TimeOfDay(now)) <==>
                   times[i] / DAY == now / DAY || TimeOfDay(now) < RETAIN)
      ensures times[i] / DAY != now / DAY && TimeOfDay(now) >= RETAIN ==> TooOld(times[i], now)
    {
      OneEntryAcrossMidnight(times[i], now);
    }
  }
}
