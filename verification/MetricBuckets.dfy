/** Time buckets of the filter metrics, by minute and by hour. An instant is a number of nanoseconds
    since the zero time; a zone is a fixed offset in nanoseconds. The two functions of the source
    differ only in their unit and in how many of it the clock field counts, so they are one here. */
module MetricBuckets {
  import opened GoStrings
  import opened Integers
  import opened KeyText

  datatype Clock = Clock(unit: int, cycle: int)

  const MINUTES := Clock(60_000_000_000, 60)
  const HOURS := Clock(3_600_000_000_000, 24)

  ghost predicate ValidClock(c: Clock) {
    c.unit >= 1 && c.cycle >= 2
  }

  /** The local unit an instant falls in, counted from the zero time. */
  function UnitNumber(c: Clock, t: int, off: int): int
    requires c.unit >= 1
  {
    (t + off) / c.unit
  }

  /** t.Minute() or t.Hour(). */
  function Field(c: Clock, t: int, off: int): int
    requires c.unit >= 1 && c.cycle >= 1
  {
    UnitNumber(c, t, off) % c.cycle
  }

  /** time.Truncate: down to a multiple of d since the zero time, whatever the zone. */
  function Truncate(t: int, d: int): int {
    if d <= 0 then t else t - t % d
  }

  /** The rounding-up step, on the clock field. */
  function Rounded(c: Clock, t: int, off: int, k: int): int
    requires ValidClock(c) && k != 0
  {
    var remainder := Field(c, t, off) % k;
    if remainder != 0 then t - remainder * c.unit + k * c.unit else t
  }

  function Bucket(c: Clock, t: int, off: int, k: int): int
    requires ValidClock(c) && k != 0
  {
    Truncate(Rounded(c, t, off, k), k * c.unit)
  }

  /** What the key's time format prints, as a number: the local unit of the bucket. */
  function TimeKey(c: Clock, t: int, off: int, k: int): int
    requires ValidClock(c) && k != 0
  {
    UnitNumber(c, Bucket(c, t, off, k), off)
  }

  datatype MetricUnit = Minute | Hour
  datatype Metric = Metric(name: string, unit: MetricUnit, interval: int)

  /** The time formats of the two units. */
  function TimeText(u: MetricUnit, time: int): string {
    match u case Minute => MinuteText(time) case Hour => HourText(time)
  }

  function ClockOf(u: MetricUnit): (c: Clock)
    ensures ValidClock(c)
  {
    match u case Minute => MINUTES case Hour => HOURS
  }

  /** None is the run-time panic of a remainder by zero, which a metric's default interval runs into. */
  function MakeFilterMetricKey(m: Metric, now: int, off: int): (r: Option<string>)
    ensures r.None? <==> m.interval == 0
  {
    if m.interval == 0 then None
    else Some(m.name + ":" + TimeText(m.unit, TimeKey(ClockOf(m.unit), now, off, m.interval)))
  }

  function MakeFilterMetricTimeout(m: Metric): int {
    m.interval * ClockOf(m.unit).unit
  }

  // ---- the bucket in local units

  /** The unit number after the rounding-up step. */
  function RoundedUnit(c: Clock, t: int, off: int, k: int): int
    requires ValidClock(c) && k >= 1
  {
    var m, r := UnitNumber(c, t, off), Field(c, t, off) % k;
    if r != 0 then m - r + k else m
  }

  /** 1 when the instant lies earlier in its unit than the zone's offset does in its own. */
  function Borrow(c: Clock, t: int, off: int): int
    requires c.unit >= 1
  {
    if (t + off) % c.unit < off % c.unit then 1 else 0
  }

  lemma ShiftedUnit(t: int, off: int, u: int, d: int)
    requires u >= 1
    ensures (t + d * u) / u ==
            (t + off) / u + d - off / u - if (t + off) % u < off % u then 1 else 0
  {
    var m, s, w, o := (t + off) / u, (t + off) % u, off / u, off % u;
    assert t + off == m * u + s && off == w * u + o;
    assert (m + d - w) * u == m * u + d * u - w * u;
    DivShift(s - o, u, m + d - w);
    DivUnique(s - o, u, if s < o then -1 else 0, if s < o then s - o + u else s - o);
  }

  lemma TruncatedUnit(x: int, off: int, u: int, k: int)
    requires u >= 1 && k >= 1
    ensures (Truncate(x, k * u) + off) / u == x / u / k * k + off / u
  {
    DivDiv(x, u, k);
    var q := x / u / k;
    assert x - x % (k * u) == q * (k * u);
    assert q * (k * u) == (q * k) * u;
    DivShift(off, u, q * k);
  }

  /** The key, with rounding, truncation and zone reduced to whole units. */
  lemma KeyInUnits(c: Clock, t: int, off: int, k: int)
    requires ValidClock(c) && k >= 1
    ensures var w := off / c.unit;
            TimeKey(c, t, off, k) == (RoundedUnit(c, t, off, k) - w - Borrow(c, t, off)) / k * k + w
  {
    var u, r := c.unit, Field(c, t, off) % k;
    var d := if r != 0 then k - r else 0;
    assert d * u == if r != 0 then k * u - r * u else 0;
    assert Rounded(c, t, off, k) == t + d * u;
    ShiftedUnit(t, off, u, d);
    TruncatedUnit(t + d * u, off, u, k);
  }

  // ---- which instants share a key

  function Distance(a: int, b: int): nat {
    if a < b then b - a else a - b
  }

  /** The number of the k-unit window an instant lies in: windows end on the local units divisible by k. */
  function Window(c: Clock, t: int, off: int, k: int): int
    requires ValidClock(c) && k >= 1
  {
    (UnitNumber(c, t, off) + k - 1) / k
  }

  lemma RoundedIsWindow(c: Clock, t: int, off: int, k: int)
    requires ValidClock(c) && k >= 1 && c.cycle % k == 0
    ensures RoundedUnit(c, t, off, k) == Window(c, t, off, k) * k
  {
    var m := UnitNumber(c, t, off);
    ModMod(m, c.cycle, k);
    var a, r := m / k, m % k;
    assert m == a * k + r;
    if r == 0 {
      DivUnique(m + k - 1, k, a, k - 1);
    } else {
      assert (a + 1) * k == a * k + k;
      DivUnique(m + k - 1, k, a + 1, r - 1);
    }
  }

  lemma WindowsAreShort(c: Clock, t1: int, t2: int, off: int, k: int)
    requires ValidClock(c) && k >= 1 && Window(c, t1, off, k) == Window(c, t2, off, k)
    ensures Distance(t1, t2) < k * c.unit
  {
    var u, m1, m2 := c.unit, UnitNumber(c, t1, off), UnitNumber(c, t2, off);
    assert -(k - 1) <= m1 - m2 <= k - 1;
    MulMonotone(m1 - m2, k - 1, u);
    MulMonotone(m2 - m1, k - 1, u);
    assert (m1 - m2) * u == m1 * u - m2 * u && (m2 - m1) * u == m2 * u - m1 * u;
    assert (k - 1) * u == k * u - u;
    assert t1 + off == m1 * u + (t1 + off) % u && t2 + off == m2 * u + (t2 + off) % u;
  }

  /** An interval that divides the clock field's range, in a zone whose offset has no fraction of a unit
      or is, in whole units, no multiple of the interval: two instants share a key exactly when they lie
      in the same window. */
  lemma SameKeyIsSameWindow(c: Clock, t1: int, t2: int, off: int, k: int)
    requires ValidClock(c) && k >= 1 && c.cycle % k == 0
    requires off % c.unit == 0 || off / c.unit % k != 0
    ensures TimeKey(c, t1, off, k) == TimeKey(c, t2, off, k) <==> Window(c, t1, off, k) == Window(c, t2, off, k)
  {
    var w := off / c.unit;
    WindowKey(c, t1, off, k);
    WindowKey(c, t2, off, k);
    var d := (-w) / k;
    SameMultiple(Window(c, t1, off, k) + d, Window(c, t2, off, k) + d, k);
  }

  lemma SameMultiple(a: int, b: int, k: int)
    requires k >= 1
    ensures a * k == b * k <==> a == b
  {
    DivUnique(a * k, k, a, 0);
    DivUnique(b * k, k, b, 0);
  }

  /** Taking one off a number leaves its quotient alone unless the divisor divides it. */
  lemma BorrowKeepsQuotient(w: int, k: int, b: int)
    requires k >= 1 && (b == 0 || (b == 1 && w % k != 0))
    ensures (-w - b) / k == (-w) / k
  {
    var d, e := (-w) / k, (-w) % k;
    assert -w == d * k + e;
    if b == 1 {
      if e == 0 {
        assert w == (-d) * k;
        DivUnique(w, k, -d, 0);
      }
      DivUnique(-w - 1, k, d, e - 1);
    }
  }

  lemma WindowKey(c: Clock, t: int, off: int, k: int)
    requires ValidClock(c) && k >= 1 && c.cycle % k == 0
    requires off % c.unit == 0 || off / c.unit % k != 0
    ensures TimeKey(c, t, off, k) == (Window(c, t, off, k) + (-(off / c.unit)) / k) * k + off / c.unit
  {
    var w, a, b := off / c.unit, Window(c, t, off, k), Borrow(c, t, off);
    KeyInUnits(c, t, off, k);
    RoundedIsWindow(c, t, off, k);
    DivShift(-w - b, k, a);
    BorrowKeepsQuotient(w, k, b);
  }

  /** The first multiple that is not below a number. */
  lemma RoundsUp(u: int, k: int)
    requires k >= 1
    ensures var end := (u + k - 1) / k * k; end - k < u <= end && end % k == 0
  {
    var x := u + k - 1;
    assert x == x / k * k + x % k;
    DivUnique(x / k * k, k, x / k, 0);
  }

  lemma WindowSum(a: int, w: int, k: int)
    requires k >= 1
    ensures (a + (-w) / k) * k + w == a * k - (-w) % k
  {
    MulAdds(a, (-w) / k, k);
    assert -w == (-w) / k * k + (-w) % k;
  }

  /** The time in such a key, for an instant of local unit u: it is in the k-unit window that ends at or after
      u, as many units before that end as the zone's offset is short of a multiple of k. */
  lemma KeyInWindow(c: Clock, t: int, off: int, k: int)
    requires ValidClock(c) && k >= 1 && c.cycle % k == 0
    requires off % c.unit == 0 || off / c.unit % k != 0
    ensures var u, end := (t + off) / c.unit, ((t + off) / c.unit + k - 1) / k * k;
            end - k < u <= end && TimeKey(c, t, off, k) == end - (-(off / c.unit)) % k
  {
    WindowKey(c, t, off, k);
    RoundsUp((t + off) / c.unit, k);
    WindowSum(((t + off) / c.unit + k - 1) / k, off / c.unit, k);
  }

  lemma NegatedMultiple(w: int, k: int)
    requires k >= 1 && w % k == 0
    ensures (-w) % k == 0
  {
    assert w == w / k * k;
    DivUnique(-w, k, -(w / k), 0);
  }

  lemma KeyAtWindowEnd(c: Clock, t: int, off: int, k: int)
    requires ValidClock(c) && k >= 1 && c.cycle % k == 0 && off % c.unit == 0 && off / c.unit % k == 0
    ensures var u, time := (t + off) / c.unit, TimeKey(c, t, off, k);
            time % k == 0 && time - k < u <= time
  {
    KeyInWindow(c, t, off, k);
    NegatedMultiple(off / c.unit, k);
    RoundsUp((t + off) / c.unit, k);
  }

  // ---- when a key outlives its timeout

  /** Instants with equal keys are less than the interval, which is the timeout, apart. */
  ghost predicate KeysExpireInTime(c: Clock, off: int, k: int)
    requires ValidClock(c) && k >= 1
  {
    forall t1, t2 :: TimeKey(c, t1, off, k) == TimeKey(c, t2, off, k) ==> Distance(t1, t2) < k * c.unit
  }

  /** For every interval and zone the bucket is less than one interval away from the instant. */
  lemma BucketNear(c: Clock, t: int, off: int, k: int)
    requires ValidClock(c) && k >= 1
    ensures Distance(Bucket(c, t, off, k), t) < k * c.unit
  {
    var u, r, x := c.unit, Field(c, t, off) % k, Rounded(c, t, off, k);
    MulAtLeast(k, u);
    if r != 0 {
      MulAtLeast(r, u);
      MulMonotone(r, k - 1, u);
      assert (k - 1) * u == k * u - u;
    }
  }

  lemma KeysExpire(c: Clock, off: int, k: int)
    requires ValidClock(c) && k >= 1 && c.cycle % k == 0
    requires off % c.unit == 0 || off / c.unit % k != 0
    ensures KeysExpireInTime(c, off, k)
  {
    forall t1, t2 | TimeKey(c, t1, off, k) == TimeKey(c, t2, off, k) ensures Distance(t1, t2) < k * c.unit {
      SameKeyIsSameWindow(c, t1, t2, off, k);
      WindowsAreShort(c, t1, t2, off, k);
    }
  }

  /** An interval of one unit is plain truncation in any zone. */
  lemma KeysOfOneUnit(c: Clock, off: int)
    requires ValidClock(c)
    ensures KeysExpireInTime(c, off, 1)
  {
    forall t1, t2 | TimeKey(c, t1, off, 1) == TimeKey(c, t2, off, 1) ensures Distance(t1, t2) < c.unit {
      KeyOfOneUnit(c, t1, off);
      KeyOfOneUnit(c, t2, off);
      assert t1 == t1 / c.unit * c.unit + t1 % c.unit && t2 == t1 / c.unit * c.unit + t2 % c.unit;
    }
  }

  lemma KeyOfOneUnit(c: Clock, t: int, off: int)
    requires ValidClock(c)
    ensures TimeKey(c, t, off, 1) == t / c.unit + off / c.unit
  {
    KeyInUnits(c, t, off, 1);
    ShiftedUnit(t, off, c.unit, 0);
    assert t + 0 * c.unit == t;
  }

  /** The key of an instant that lies s nanoseconds into local unit m. */
  lemma KeyAt(c: Clock, m: int, s: int, off: int, k: int)
    requires ValidClock(c) && k >= 1 && 0 <= s < c.unit
    ensures var r, w := m % c.cycle % k, off / c.unit;
            TimeKey(c, m * c.unit + s - off, off, k) ==
            ((if r != 0 then m - r + k else m) - w - (if s < off % c.unit then 1 else 0)) / k * k + w
  {
    DivUnique(m * c.unit + s, c.unit, m, s);
    KeyInUnits(c, m * c.unit + s - off, off, k);
  }

  /** What KeyAt comes to in two cases: an instant just past a window's start, and one in a unit that
      ends a window. */
  lemma FractionalKeys(c: Clock, off: int, k: int)
    requires ValidClock(c) && k >= 2 && c.cycle % k == 0
    requires off % c.unit != 0 && off / c.unit % k == 0
    ensures var u, o := c.unit, off % c.unit;
            TimeKey(c, 1 * u + o - off, off, k) == TimeKey(c, (2 * k) * u + (o - 1) - off, off, k)
  {
    var o, w := off % c.unit, off / c.unit;
    KeyAt(c, 1, o, off, k);
    KeyAt(c, 2 * k, o - 1, off, k);
    ModMod(1, c.cycle, k);
    ModMod(2 * k, c.cycle, k);
    DivUnique(1, k, 0, 1);
    DivUnique(2 * k, k, 2, 0);
    QuotientsMeet(w, k);
  }

  lemma QuotientsMeet(w: int, k: int)
    requires k >= 1 && w % k == 0
    ensures (1 - 1 + k - w) / k == (2 * k - w - 1) / k
  {
    var n := w / k;
    assert w == n * k;
    assert (1 - n) * k == k - n * k;
    DivUnique(k - w, k, 1 - n, 0);
    DivUnique(2 * k - w - 1, k, 1 - n, k - 1);
  }

  lemma FractionalDistance(u: int, o: int, off: int, k: int)
    requires u >= 2 && k >= 2
    ensures Distance(1 * u + o - off, (2 * k) * u + (o - 1) - off) >= k * u
  {
    assert (2 * k) * u == k * u + k * u;
    MulMonotone(2, k, u);
  }

  /** Two instants far apart with one key: the zone's offset has a fraction of a unit and is, in whole
      units, a multiple of the interval. */
  lemma FractionalZoneOutlives(c: Clock, off: int, k: int)
    requires ValidClock(c) && k >= 2 && c.cycle % k == 0
    requires off % c.unit != 0 && off / c.unit % k == 0
    ensures !KeysExpireInTime(c, off, k)
  {
    FractionalKeys(c, off, k);
    assert c.unit != 1;
    FractionalDistance(c.unit, off % c.unit, off, k);
  }

  /** For an interval that divides the clock field's range, the zones in which keys do not outlive the
      timeout are exactly: all of them for an interval of one unit; otherwise those whose offset has no
      fraction of a unit or is, in whole units, no multiple of the interval. */
  lemma ZonesExactly(c: Clock, off: int, k: int)
    requires ValidClock(c) && k >= 1 && c.cycle % k == 0
    ensures KeysExpireInTime(c, off, k) <==> k == 1 || off % c.unit == 0 || off / c.unit % k != 0
  {
    if k == 1 {
      KeysOfOneUnit(c, off);
    } else if off % c.unit == 0 || off / c.unit % k != 0 {
      KeysExpire(c, off, k);
    } else {
      FractionalZoneOutlives(c, off, k);
    }
  }

  // ---- intervals that do not divide the clock field's range

  /** An instant of local unit m at which the zone's offset plays no part below the unit. */
  function InstantOf(c: Clock, m: int, off: int): int
    requires c.unit >= 1
  {
    m * c.unit + off % c.unit - off
  }

  /** The key at such an instant of the unit whose clock field reads f on the given day. */
  lemma KeyAtField(c: Clock, off: int, m: int, days: int, f: int, n: int, r: int, k: int)
    requires ValidClock(c) && k >= 1
    requires m == days * c.cycle + f && 0 <= f < c.cycle
    requires f == n * k + r && 0 <= r < k
    ensures var w := off / c.unit;
            TimeKey(c, InstantOf(c, m, off), off, k) == ((if r != 0 then m - r + k else m) - w) / k * k + w
  {
    DivUnique(m, c.cycle, days, f);
    DivUnique(f, k, n, r);
    KeyAt(c, m, off % c.unit, off, k);
  }

  lemma FarApart(c: Clock, off: int, k: int, m1: int, m2: int)
    requires ValidClock(c) && k >= 1 && m2 - m1 >= k
    ensures TimeKey(c, InstantOf(c, m1, off), off, k) == TimeKey(c, InstantOf(c, m2, off), off, k) ==>
              !KeysExpireInTime(c, off, k)
  {
    MulMonotone(k, m2 - m1, c.unit);
    assert m2 * c.unit - m1 * c.unit == (m2 - m1) * c.unit;
    assert Distance(InstantOf(c, m1, off), InstantOf(c, m2, off)) >= k * c.unit;
  }

  /** How far the start of a day lies, in the zone's whole units w, beyond a multiple of the interval. */
  function DayPhase(cycle: int, w: int, k: int, day: int): int
    requires k >= 1
  {
    (day * cycle - w) % k
  }

  lemma NextDayPhase(cycle: int, w: int, k: int, day: int)
    requires k >= 1 && cycle >= 1
    ensures var p := DayPhase(cycle, w, k, day) + cycle % k;
            DayPhase(cycle, w, k, day + 1) == if p < k then p else p - k
  {
    var x, y := day * cycle - w, (day + 1) * cycle - w;
    MulAdds(day, 1, cycle);
    var p, q := x % k + cycle % k, x / k + cycle / k;
    assert x == x / k * k + x % k && cycle == cycle / k * k + cycle % k;
    MulAdds(x / k, cycle / k, k);
    MulAdds(q, 1, k);
    assert y == q * k + p;
    if p < k {
      DivUnique(y, k, q, p);
    } else {
      DivUnique(y, k, q + 1, p - k);
    }
  }

  /** The phase cannot fall every day, so on some day it does not. */
  lemma {:induction false} SteadyDay(cycle: int, w: int, k: int, from: int) returns (day: int)
    requires k >= 1 && cycle >= 1 && cycle % k != 0
    ensures DayPhase(cycle, w, k, day) + cycle % k < k
    decreases DayPhase(cycle, w, k, from)
  {
    if DayPhase(cycle, w, k, from) + cycle % k < k {
      day := from;
    } else {
      NextDayPhase(cycle, w, k, from);
      day := SteadyDay(cycle, w, k, from + 1);
    }
  }

  /** Which multiple of the interval lies below a number of units. */
  lemma QuotientWithin(x: int, base: int, n: int, d: int, k: int)
    requires k >= 1 && x == base + n * k + d && 0 <= base % k + d < k
    ensures x / k == base / k + n
  {
    MulAdds(base / k, n, k);
    DivUnique(x, k, base / k + n, base % k + d);
  }

  /** The numbers of an interval shorter than the cycle. */
  lemma ShortNumbers(cycle: int, k: int) returns (n: int, d: int)
    requires 1 <= k < cycle && cycle % k != 0
    ensures n >= 1 && 1 <= d < k && cycle == n * k + d && d == cycle % k
    ensures 0 <= (n - 1) * k == n * k - k
  {
    n, d := cycle / k, cycle % k;
    if n <= 0 { MulMonotone(n, 0, k); }
    MulAdds(n - 1, 1, k);
    MulMonotone(0, n - 1, k);
  }

  /** An interval shorter than the cycle: the last full window of a steady day and the next day's first
      unit share a key. */
  lemma ShortIntervalOutlives(c: Clock, off: int, k: int)
    requires ValidClock(c) && 1 <= k < c.cycle && c.cycle % k != 0
    ensures !KeysExpireInTime(c, off, k)
  {
    var w := off / c.unit;
    var n, d := ShortNumbers(c.cycle, k);
    var day := SteadyDay(c.cycle, w, k, 0);
    ShortKeysMeet(c, off, k, n, d, day, day * c.cycle);
    MulAdds(day, 1, c.cycle);
    FarApart(c, off, k, day * c.cycle + (n - 1) * k + 1, day * c.cycle + c.cycle);
  }

  lemma ShortKeysMeet(c: Clock, off: int, k: int, n: int, d: int, day: int, start: int)
    requires ValidClock(c) && n >= 1 && 1 <= d < k && c.cycle == n * k + d && 0 <= (n - 1) * k == n * k - k
    requires start == day * c.cycle && (start - off / c.unit) % k + d < k
    ensures TimeKey(c, InstantOf(c, start + (n - 1) * k + 1, off), off, k) ==
            TimeKey(c, InstantOf(c, start + c.cycle, off), off, k)
  {
    var w := off / c.unit;
    var m1, m2 := start + (n - 1) * k + 1, start + c.cycle;
    MulAdds(day, 1, c.cycle);
    KeyAtField(c, off, m1, day, (n - 1) * k + 1, n - 1, 1, k);
    KeyAtField(c, off, m2, day + 1, 0, 0, 0, k);
    QuotientWithin(m1 - 1 + k - w, start - w, n, 0, k);
    QuotientWithin(m2 - w, start - w, n, d, k);
  }

  lemma MultipleBelow(d: int, bound: int) returns (i: int)
    requires 1 <= d
    ensures bound - d <= i * d < bound
  {
    i := (bound - 1) / d;
  }

  /** An interval longer than the cycle: the second unit of a steady day and the first unit of a later day,
      the last one in the next window, share a key. */
  lemma LongIntervalOutlives(c: Clock, off: int, k: int)
    requires ValidClock(c) && k > c.cycle
    ensures !KeysExpireInTime(c, off, k)
  {
    var w := off / c.unit;
    DivUnique(c.cycle, k, 0, c.cycle);
    var day := SteadyDay(c.cycle, w, k, 0);
    var start := day * c.cycle;
    var base := start - w - (start - w) % k;
    var i := MultipleBelow(c.cycle, base + 2 * k + w);
    LongKeysMeet(c, off, k, day, start, i, i * c.cycle);
    FarApart(c, off, k, start + 1, i * c.cycle);
  }

  lemma LongKeysMeet(c: Clock, off: int, k: int, day: int, start: int, i: int, later: int)
    requires ValidClock(c) && k > c.cycle && start == day * c.cycle && later == i * c.cycle
    requires (start - off / c.unit) % k + c.cycle < k
    requires var base := start - off / c.unit - (start - off / c.unit) % k;
             base + 2 * k - c.cycle <= later - off / c.unit < base + 2 * k
    ensures TimeKey(c, InstantOf(c, start + 1, off), off, k) == TimeKey(c, InstantOf(c, later, off), off, k)
  {
    var w := off / c.unit;
    var p := (start - w) % k;
    KeyAtField(c, off, start + 1, day, 1, 0, 1, k);
    KeyAtField(c, off, later, i, 0, 0, 0, k);
    QuotientWithin(start + k - w, start - w, 1, 0, k);
    QuotientWithin(later - w, start - w, 1, later - w - (start - w) - k, k);
  }

  /** Every interval in every zone: keys never outlive the timeout exactly for an interval of one unit, and
      for one that divides the clock field's range in a zone whose offset has no fraction of a unit or is,
      in whole units, no multiple of the interval. */
  lemma KeysExpireExactly(c: Clock, off: int, k: int)
    requires ValidClock(c) && k >= 1
    ensures KeysExpireInTime(c, off, k) <==>
            k == 1 || (c.cycle % k == 0 && (off % c.unit == 0 || off / c.unit % k != 0))
  {
    if c.cycle % k == 0 {
      ZonesExactly(c, off, k);
    } else {
      assert k != 1;
      if k < c.cycle {
        ShortIntervalOutlives(c, off, k);
      } else {
        assert k != c.cycle by { DivUnique(k, k, 1, 0); }
        LongIntervalOutlives(c, off, k);
      }
    }
  }

  /** The intervals whose keys never outlive the timeout, in all zones of whole units, are exactly the
      divisors of the clock field's range: of 60 for minutes, of 24 for hours. */
  lemma IntervalsExactly(c: Clock, k: int)
    requires ValidClock(c) && k >= 1
    ensures (forall off :: off % c.unit == 0 ==> KeysExpireInTime(c, off, k)) <==> c.cycle % k == 0
  {
    forall off | off % c.unit == 0 ensures KeysExpireInTime(c, off, k) <==> c.cycle % k == 0 {
      KeysExpireExactly(c, off, k);
      DivUnique(c.cycle, 1, c.cycle, 0);
    }
    DivUnique(0, c.unit, 0, 0);
    assert c.cycle % k != 0 ==> !KeysExpireInTime(c, 0, k);
  }

  // ---- metrics

  lemma TimeTextForm(u: MetricUnit, time: int)
    ensures ':' !in TimeText(u, time)
  {
    HourTextForm(time);
    MinuteTextForm(time);
  }

  /** A name may hold colons, a time does not: the key's last one parts them. */
  lemma KeyParts(n1: string, t1: string, n2: string, t2: string)
    requires ':' !in t1 && ':' !in t2
    ensures n1 + ":" + t1 == n2 + ":" + t2 <==> n1 == n2 && t1 == t2
  {
    var k1, k2 := n1 + ":" + t1, n2 + ":" + t2;
    if k1 == k2 {
      assert k1[|n1|] == ':' && k2[|n2|] == ':';
      assert forall i :: |n1| < i < |k1| ==> k1[i] == t1[i - |n1| - 1];
      assert forall i :: |n2| < i < |k2| ==> k2[i] == t2[i - |n2| - 1];
      assert |n1| == |n2|;
      assert n1 == k1[..|n1|] && t1 == k1[|n1| + 1..];
      assert n2 == k2[..|n2|] && t2 == k2[|n2| + 1..];
    }
  }

  /** The keys of two metrics of one unit agree exactly when the names and the printed units do. */
  lemma KeysOfOneClock(m1: Metric, m2: Metric, t1: int, t2: int, off: int)
    requires m1.interval != 0 && m2.interval != 0 && m1.unit == m2.unit
    ensures var c := ClockOf(m1.unit);
            MakeFilterMetricKey(m1, t1, off) == MakeFilterMetricKey(m2, t2, off) <==>
            m1.name == m2.name && TimeKey(c, t1, off, m1.interval) == TimeKey(c, t2, off, m2.interval)
  {
    var c := ClockOf(m1.unit);
    var a, b := TimeKey(c, t1, off, m1.interval), TimeKey(c, t2, off, m2.interval);
    TimeTextForm(m1.unit, a);
    TimeTextForm(m1.unit, b);
    KeyParts(m1.name, TimeText(m1.unit, a), m2.name, TimeText(m1.unit, b));
    MinuteTextInjective(a, b);
    HourTextInjective(a, b);
  }

  /** The local day on which the bucket of an instant starts. */
  function KeyDay(m: Metric, t: int, off: int): int
    requires m.interval != 0
  {
    var time := TimeKey(ClockOf(m.unit), t, off, m.interval);
    (if m.unit.Minute? then time / 60 else time) / 24
  }

  /** Minutes and hours in nanoseconds: where the offset is a multiple of the interval, a key shows the end of
      the instant's window, the first multiple of the interval that is not before the instant's minute or
      hour. */
  lemma KeyShowsWindowEnd(m: Metric, t: int, off: int)
    requires m.interval >= 1 && (if m.unit.Minute? then 60 else 24) % m.interval == 0
    requires off % (if m.unit.Minute? then 60_000_000_000 else 3_600_000_000_000) == 0
    requires off / (if m.unit.Minute? then 60_000_000_000 else 3_600_000_000_000) % m.interval == 0
    ensures var time := TimeKey(ClockOf(m.unit), t, off, m.interval);
            var u := (t + off) / if m.unit.Minute? then 60_000_000_000 else 3_600_000_000_000;
            time % m.interval == 0 && time - m.interval < u <= time
  {
    match m.unit
    case Minute => KeyAtWindowEnd(MINUTES, t, off, m.interval);
    case Hour => KeyAtWindowEnd(HOURS, t, off, m.interval);
  }

  lemma KeySlices(name: string, text: string)
    ensures var key, n := name + ":" + text, |name|;
            |key| == n + 1 + |text| && key[..n] == name && key[n] == ':' && key[n + 1..] == text &&
            (|text| == 12 ==> key[n + 1..n + 11] == text[..10] && key[n + 11..] == text[10..])
  {
  }

  /** In years of four digits a key is the name, a colon and the local time at which its bucket starts: year,
      month, day and hour, and for a metric by minutes the minute. */
  lemma KeyShows(m: Metric, t: int, off: int, year: nat, month: nat, day: nat)
    requires m.interval != 0 && Date(year, month, day) && year < 10000
    requires KeyDay(m, t, off) == DayNumber(year, month, day)
    ensures var time := TimeKey(ClockOf(m.unit), t, off, m.interval);
            MakeFilterMetricKey(m, t, off).Some? &&
            var key, n := MakeFilterMetricKey(m, t, off).value, |m.name|;
            |key| > n && key[..n] == m.name && key[n] == ':' &&
            match m.unit
            case Hour => ReadsHour(key[n + 1..], year, month, day, time % 24)
            case Minute =>
              |key| == n + 13 && ReadsHour(key[n + 1..n + 11], year, month, day, time / 60 % 24) &&
              Reads(key[n + 11..], time % 60)
  {
    var time := TimeKey(ClockOf(m.unit), t, off, m.interval);
    KeySlices(m.name, TimeText(m.unit, time));
    match m.unit
    case Hour => HourReads(time, year, month, day);
    case Minute => MinuteReads(time, year, month, day);
  }

  /** The year that the key of an instant shows. */
  function KeyYear(m: Metric, t: int, off: int): int
    requires m.interval != 0
  {
    YearOf(KeyDay(m, t, off))
  }

  /** In years of four digits the key of a minute is longer by two than that of an hour, so that they
      differ. */
  lemma UnitsKeepApart(m1: Metric, m2: Metric, t1: int, t2: int, off: int)
    requires m1.interval != 0 && m2.interval != 0 && m1.unit.Minute? && m2.unit.Hour?
    ensures 0 <= KeyYear(m1, t1, off) < 10000 && 0 <= KeyYear(m2, t2, off) < 10000 ==>
              MakeFilterMetricKey(m1, t1, off) != MakeFilterMetricKey(m2, t2, off)
  {
    var a, b := TimeKey(MINUTES, t1, off, m1.interval), TimeKey(HOURS, t2, off, m2.interval);
    MinuteTextForm(a);
    HourTextForm(b);
    KeyParts(m1.name, MinuteText(a), m2.name, HourText(b));
  }

  /** Instants that a metric counts under one key are less than its timeout apart. */
  ghost predicate TimeoutHolds(m: Metric, off: int) {
    forall t1, t2 :: MakeFilterMetricKey(m, t1, off) == MakeFilterMetricKey(m, t2, off) ==>
      Distance(t1, t2) < MakeFilterMetricTimeout(m)
  }

  /** For which metrics and zones the timeout covers every key's whole window. */
  lemma TimeoutExactly(m: Metric, off: int)
    requires m.interval >= 1
    ensures var c := ClockOf(m.unit);
            TimeoutHolds(m, off) <==>
            m.interval == 1 ||
            (c.cycle % m.interval == 0 && (off % c.unit == 0 || off / c.unit % m.interval != 0))
  {
    var c, k := ClockOf(m.unit), m.interval;
    KeysExpireExactly(c, off, k);
    forall t1, t2
      ensures MakeFilterMetricKey(m, t1, off) == MakeFilterMetricKey(m, t2, off) <==>
              TimeKey(c, t1, off, k) == TimeKey(c, t2, off, k)
    {
      KeysOfOneClock(m, m, t1, t2, off);
    }
  }

  /** Two metrics of equal dividing interval, in a zone of whole units, count an instant each under the same
      key exactly when they share name and unit and the instants lie in the same window; of two units that
      is so in years of four digits. */
  lemma KeysAgreeExactly(m1: Metric, m2: Metric, t1: int, t2: int, off: int)
    requires m1.interval == m2.interval >= 1 && ClockOf(m1.unit).cycle % m1.interval == 0
    requires off % ClockOf(m1.unit).unit == 0
    ensures m1.unit == m2.unit || (0 <= KeyYear(m1, t1, off) < 10000 && 0 <= KeyYear(m2, t2, off) < 10000) ==>
              (MakeFilterMetricKey(m1, t1, off) == MakeFilterMetricKey(m2, t2, off) <==>
               m1.name == m2.name && m1.unit == m2.unit &&
               Window(ClockOf(m1.unit), t1, off, m1.interval) == Window(ClockOf(m1.unit), t2, off, m1.interval))
  {
    if m1.unit == m2.unit {
      KeysOfOneClock(m1, m2, t1, t2, off);
      SameKeyIsSameWindow(ClockOf(m1.unit), t1, t2, off, m1.interval);
    } else if m1.unit.Minute? {
      UnitsKeepApart(m1, m2, t1, t2, off);
    } else {
      UnitsKeepApart(m2, m1, t2, t1, off);
    }
  }

  /** A metric whose interval divides 60 minutes, or 24 hours: in a zone of whole units, two events
      counted under one key are closer than the key's timeout. */
  lemma KeyWithinTimeout(m: Metric, t1: int, t2: int, off: int)
    requires m.interval >= 1 && ClockOf(m.unit).cycle % m.interval == 0 && off % ClockOf(m.unit).unit == 0
    ensures MakeFilterMetricKey(m, t1, off) == MakeFilterMetricKey(m, t2, off) ==>
              Distance(t1, t2) < MakeFilterMetricTimeout(m)
    ensures MakeFilterMetricTimeout(m) == m.interval * if m.unit.Minute? then 60_000_000_000 else 3_600_000_000_000
  {
    KeysOfOneClock(m, m, t1, t2, off);
    KeysExpire(ClockOf(m.unit), off, m.interval);
  }

  /** The key of an instant s into unit f of a day of 24 units, for an interval of two units, in a zone off
      by a part of a unit. */
  lemma PartUnitKey(c: Clock, day: int, f: int, off: int, s: int)
    requires ValidClock(c) && c.cycle == 24 && 0 <= s < c.unit && 0 <= off < c.unit && 0 <= f < 24
    ensures var end := 24 * day + f + f % 2;
            TimeKey(c, (24 * day + f) * c.unit + s - off, off, 2) == (if s < off then end - 1 else end) / 2 * 2
  {
    DivUnique(off, c.unit, 0, off);
    DivUnique(24 * day + f, 24, day, f);
    KeyAt(c, 24 * day + f, s, off, 2);
  }

  lemma HalfHourKeys(day: int, off: int, t1: int, t2: int)
    requires off == HOURS.unit / 2
    requires t1 == (24 * day + 1) * HOURS.unit && t2 == (24 * day + 4) * HOURS.unit - 1_000_000_000
    ensures TimeKey(HOURS, t1, off, 2) == TimeKey(HOURS, t2, off, 2)
  {
    PartUnitKey(HOURS, day, 1, off, off);
    PartUnitKey(HOURS, day, 4, off, off - 1_000_000_000);
    DivUnique(24 * day + 2, 2, 12 * day + 1, 0);
    DivUnique(24 * day + 3, 2, 12 * day + 1, 1);
  }

  /** An hourly metric with an interval of two hours in a zone half an hour off: the local times 01:30 and
      04:29:59 of any day share a key, though its timeout is two hours. */
  lemma HalfHourZone(name: string, day: int)
    ensures var m, off, hour := Metric(name, Hour, 2), HOURS.unit / 2, HOURS.unit;
            var t1, t2 := (24 * day + 1) * hour, (24 * day + 4) * hour - 1_000_000_000;
            MakeFilterMetricKey(m, t1, off) == MakeFilterMetricKey(m, t2, off) &&
            Distance(t1, t2) >= MakeFilterMetricTimeout(m)
  {
    var m, off, hour := Metric(name, Hour, 2), HOURS.unit / 2, HOURS.unit;
    var t1, t2 := (24 * day + 1) * hour, (24 * day + 4) * hour - 1_000_000_000;
    HalfHourKeys(day, off, t1, t2);
    KeysOfOneClock(m, m, t1, t2, off);
  }
}
