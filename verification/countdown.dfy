/** The applications countdown badge: the target date, the
    days/hours/minutes/seconds left, the "finished" test that stops the
    ticking, and the rotation between the date and the countdown. Clock
    readings are parameters; a date is a local calendar reading. */
module Countdown {

  const MsPerSecond: int := 1000
  const MsPerMinute: int := 60000
  const MsPerHour: int := 3600000
  const MsPerDay: int := 86400000

  /** What the badge shows. */
  datatype TimeLeft = TimeLeft(days: int, hours: int, minutes: int, seconds: int)

  const Zero := TimeLeft(0, 0, 0, 0)

  /** JavaScript's `%` on numbers: the remainder of truncating division,
      so it takes the sign of `x`. */
  function JsRem(x: real, m: real): (r: real)
    requires m > 0.0
    ensures x >= 0.0 ==> 0.0 <= r < m
    ensures x < 0.0 ==> -m < r <= 0.0
    ensures ((x - r) / m).Floor as real == (x - r) / m
  {
    if x >= 0.0 then
      RemRange(x, m);
      var n := (x / m).Floor;
      var r := x - n as real * m;
      WholeMultiple(x - r, n, m);
      r
    else
      RemRange(-x, m);
      var n := ((-x) / m).Floor;
      var r := -((-x) - n as real * m);
      NegMul(n, m);
      WholeMultiple(x - r, -n, m);
      r
  }

  /** A whole multiple of `m`, divided by `m`, is a whole number. */
  lemma WholeMultiple(d: real, n: int, m: real)
    requires m > 0.0 && d == n as real * m
    ensures (d / m).Floor as real == d / m
  {
    assert d / m == n as real;
  }

  lemma NegMul(n: int, m: real)
    ensures (-n) as real * m == -(n as real * m)
  {
  }

  lemma RemRange(x: real, m: real)
    requires m > 0.0 && x >= 0.0
    ensures 0.0 <= x - (x / m).Floor as real * m < m
  {
    var q := x / m;
    RemLow(x, m, q, q.Floor as real);
    RemHigh(x, m, q, q.Floor as real);
  }

  lemma RemLow(x: real, m: real, q: real, n: real)
    requires m > 0.0 && q * m == x && n <= q
    ensures 0.0 <= x - n * m
  {
    MulLe(n, q, m);
  }

  lemma RemHigh(x: real, m: real, q: real, n: real)
    requires m > 0.0 && q * m == x && q < n + 1.0
    ensures x - n * m < m
  {
    MulLt(q, n + 1.0, m);
    assert (n + 1.0) * m == n * m + m;
  }

  lemma MulLe(a: real, b: real, m: real)
    requires a <= b && m > 0.0
    ensures a * m <= b * m
  {
  }

  lemma MulLt(a: real, b: real, m: real)
    requires a < b && m > 0.0
    ensures a * m < b * m
  {
  }

  /** `calculateTimeLeft()` for a difference of `difference` milliseconds
      between the target and now. */
  function CalculateTimeLeft(difference: int): (t: TimeLeft)
    ensures difference <= 0 ==> t == Zero
    ensures difference > 0 ==> t.days >= 0 && 0 <= t.hours < 24 && 0 <= t.minutes < 60 && 0 <= t.seconds < 60
  {
    if difference <= 0 then Zero
    else
      var d := difference as real;
      TimeLeft((d / (1000.0 * 60.0 * 60.0 * 24.0)).Floor,
               JsRem(d / (1000.0 * 60.0 * 60.0), 24.0).Floor,
               JsRem(d / 1000.0 / 60.0, 60.0).Floor,
               JsRem(d / 1000.0, 60.0).Floor)
  }

  /** Dividing by the unit sizes in turn. */
  lemma UnitsNest(d: int)
    requires d >= 0
    ensures (d / MsPerSecond) / 60 == d / MsPerMinute
    ensures (d / MsPerMinute) / 60 == d / MsPerHour
    ensures (d / MsPerHour) / 24 == d / MsPerDay
  {
  }

  /** `Math.floor` of a quotient of integers is integer division. */
  lemma FloorDiv(d: int, m: int)
    requires d >= 0 && m > 0
    ensures (d as real / m as real).Floor == d / m
  {
    var q, r := d / m, d % m;
    assert d == q * m + r;
    assert d as real / m as real == q as real + r as real / m as real;
    assert 0.0 <= r as real / m as real < 1.0;
  }

  /** `Math.floor(JsRem(d / m, k))` is `(d / m) % k` on integers. */
  lemma FloorRem(d: int, m: int, k: int)
    requires d >= 0 && m > 0 && k > 0
    requires (d / m) / k == d / (m * k)
    ensures JsRem(d as real / m as real, k as real).Floor == (d / m) % k
  {
    var x := d as real / m as real;
    RealNest(d, m, k);
    FloorDiv(d, m * k);
    FloorDiv(d, m);
    RemFloor(x, k);
  }

  lemma RealNest(d: int, m: int, k: int)
    requires m > 0 && k > 0
    ensures (d as real / m as real) / k as real == d as real / (m * k) as real
  {
  }

  /** The floor of a non-negative remainder. */
  lemma RemFloor(x: real, k: int)
    requires x >= 0.0 && k > 0
    ensures JsRem(x, k as real).Floor == x.Floor - (x / k as real).Floor * k
  {
    var n := (x / k as real).Floor;
    assert (n * k) as real == n as real * k as real;
    FloorShift(x, n * k);
  }

  lemma FloorShift(x: real, n: int)
    ensures (x - n as real).Floor == x.Floor - n
  {
  }

  /** For a positive difference the four fields are the usual integer
      decomposition of the whole seconds left. */
  lemma {:induction false} TimeLeftInteger(difference: int)
    requires difference > 0
    ensures CalculateTimeLeft(difference) ==
      TimeLeft(difference / MsPerDay, (difference / MsPerHour) % 24,
               (difference / MsPerMinute) % 60, (difference / MsPerSecond) % 60)
  {
    var d := difference as real;
    UnitsNest(difference);
    FloorDiv(difference, MsPerDay);
    assert d / (1000.0 * 60.0 * 60.0 * 24.0) == d / MsPerDay as real;
    assert d / (1000.0 * 60.0 * 60.0) == d / MsPerHour as real;
    FloorRem(difference, MsPerHour, 24);
    assert d / 1000.0 / 60.0 == d / MsPerMinute as real;
    FloorRem(difference, MsPerMinute, 60);
    assert d / 1000.0 == d / MsPerSecond as real;
    FloorRem(difference, MsPerSecond, 60);
  }

  /** The fields add back up to the whole seconds left. */
  lemma {:induction false} TimeLeftAddsUp(difference: int)
    requires difference > 0
    ensures var t := CalculateTimeLeft(difference);
      t.days * 86400 + t.hours * 3600 + t.minutes * 60 + t.seconds == difference / 1000
  {
    TimeLeftInteger(difference);
    var s := difference / 1000;
    var m := s / 60;
    var h := m / 60;
    UnitsNest(difference);
    assert difference / MsPerMinute == m;
    assert difference / MsPerHour == h;
    assert difference / MsPerDay == h / 24;
    assert s == 60 * m + s % 60;
    assert m == 60 * h + m % 60;
    assert h == 24 * (h / 24) + h % 24;
  }

  /** All four fields are zero. */
  predicate IsOver(t: TimeLeft) {
    t.days == 0 && t.hours == 0 && t.minutes == 0 && t.seconds == 0
  }

  /** The ticking stops, and the "open now" badge shows, exactly when
      less than a second is left. */
  lemma FinishedIff(difference: int)
    ensures IsOver(CalculateTimeLeft(difference)) <==> difference < 1000
  {
    if difference > 0 {
      TimeLeftAddsUp(difference);
      TimeLeftInteger(difference);
      if difference < 1000 {
        assert difference / MsPerSecond == 0;
        assert difference / MsPerMinute == 0;
        assert difference / MsPerHour == 0;
        assert difference / MsPerDay == 0;
      }
    }
  }

  /** A local calendar reading; `month` counts from 0 as in JavaScript. */
  datatype Instant = Instant(year: int, month: int, day: int, ms: int)

  predicate ValidInstant(t: Instant) {
    0 <= t.month < 12 && 1 <= t.day <= 31 && 0 <= t.ms < MsPerDay
  }

  /** `a < b` on the timestamps of two dates. */
  predicate Before(a: Instant, b: Instant) {
    || a.year < b.year
    || (a.year == b.year && a.month < b.month)
    || (a.year == b.year && a.month == b.month && a.day < b.day)
    || (a.year == b.year && a.month == b.month && a.day == b.day && a.ms < b.ms)
  }

  /** `new Date(year, 1, 8)`: midnight on February 8. */
  function February8(year: int): Instant {
    Instant(year, 1, 8, 0)
  }

  /** `getTargetDate()`: February 8 of this year, or of next year when
      this year's has already passed. */
  function TargetDate(now: Instant): (r: Instant)
    requires ValidInstant(now)
    ensures ValidInstant(r)
    ensures r == February8(now.year) || r == February8(now.year + 1)
    ensures !Before(r, now)
    ensures forall y: int :: y < r.year ==> Before(February8(y), now)
  {
    var target := February8(now.year);
    if Before(target, now) then February8(now.year + 1) else target
  }

  /** The rotation's next index: `(prev + 1) % 2`. */
  function NextIndex(i: nat): (r: nat)
    ensures r < 2
    ensures i < 2 ==> r != i
  {
    (i + 1) % 2
  }

  /** How long an index stays on screen: the date for 5 s, the countdown
      for 10 s. */
  function Duration(i: nat): (ms: nat)
    ensures ms > 0
  {
    if i == 0 then 5000 else 10000
  }

  /** The index on screen after `k` switches, starting from 0. */
  function IndexAfter(k: nat): (i: nat)
    ensures i < 2
  {
    if k == 0 then 0 else NextIndex(IndexAfter(k - 1))
  }

  /** Milliseconds until the `k`-th switch. */
  function Elapsed(k: nat): nat {
    if k == 0 then 0 else Elapsed(k - 1) + Duration(IndexAfter(k - 1))
  }

  /** The index alternates 0, 1, 0, ...; one full cycle takes 15 s and
      the countdown appears 5 s into each cycle. */
  lemma {:induction false} RotationPeriod(k: nat)
    ensures IndexAfter(k) == k % 2
    ensures k % 2 == 0 ==> Elapsed(k) == 15000 * (k / 2)
    ensures k % 2 == 1 ==> Elapsed(k) == 15000 * (k / 2) + 5000
  {
    if k > 0 {
      var j := k - 1;
      RotationPeriod(j);
      if k % 2 == 0 {
        assert j % 2 == 1 && j / 2 + 1 == k / 2;
        assert Elapsed(k) == Elapsed(j) + 10000;
      } else {
        assert j % 2 == 0 && j / 2 == k / 2;
        assert Elapsed(k) == Elapsed(j) + 5000;
      }
    }
  }
}
