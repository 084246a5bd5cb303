/** QTime as the guest store uses it: a time of day in milliseconds that wraps at midnight. */
module GuestClock {

  const DAY: nat := 86_400_000
  const RETAIN_SECS: nat := 30 * 60
  const RETAIN: nat := 1000 * RETAIN_SECS

  /** A point of real time, in milliseconds, seen on the wall clock. */
  function TimeOfDay(instant: nat): (t: nat)
    ensures t < DAY
  {
    instant % DAY
  }

  function AddSecs(t: nat, secs: int): (r: nat)
    ensures r < DAY
  {
    (t + 1000 * secs) % DAY
  }

  /** Entries added at or before the cutoff are swept. */
  function Cutoff(now: nat): nat
  {
    AddSecs(now, -(RETAIN_SECS as int))
  }

  predicate TooOld(added: nat, now: nat)
  {
    now - added >= RETAIN
  }

  /** What the sweep is after when the clock does not pass midnight and it is at least 00:30: pictures of
      half an hour and more. */
  lemma CutoffOnOneDay(addTime: nat, now: nat)
    requires 1_800_000 <= now < 86_400_000
    ensures addTime <= Cutoff(now) <==> now - addTime >= 1_800_000
    ensures TooOld(addTime, now) <==> now - addTime >= 1_800_000
  {
  }

  /** The wall-clock test agrees with real age exactly in these two situations. */
  lemma CutoffAgreesExactlyWhen(added: nat, now: nat)
    requires added <= now < added + 86_400_000
    ensures (TimeOfDay(added) <= Cutoff(TimeOfDay(now)) <==> now - added >= 1_800_000)
       <==> || (added / 86_400_000 == now / 86_400_000 && TimeOfDay(now) >= 1_800_000)
            || (added / 86_400_000 + 1 == now / 86_400_000 && TimeOfDay(now) < 1_800_000)
  {
    var n, a := TimeOfDay(now), TimeOfDay(added);
    assert now == DAY * (now / DAY) + n && added == DAY * (added / DAY) + a;
    assert added / DAY == now / DAY || added / DAY + 1 == now / DAY;
    assert Cutoff(n) == if n >= RETAIN then n - RETAIN else n - RETAIN + DAY;
  }
}
