/** Crystal time: milliseconds read straight from the registers of a ticking calendar, and the
    calendar arithmetic behind it. */
module RtcClock {
  import opened Basics
  import opened Division

  // ---- the calendar ------------------------------------------------------------------

  /** A day of 2000..2099; `year` counts from 2000. */
  datatype Date = Date(year: nat, month: nat, day: nat)

  const DAYS := 36525

  predicate Leap(year: nat) {
    var y := 2000 + year;
    y % 4 == 0 && (y % 100 != 0 || y % 400 == 0)
  }

  function MonthLen(year: nat, month: nat): nat {
    if month == 2 then (if Leap(year) then 29 else 28)
    else if month == 4 || month == 6 || month == 9 || month == 11 then 30
    else 31
  }

  predicate ValidDate(d: Date) {
    d.year <= 99 && 1 <= d.month <= 12 && 1 <= d.day <= MonthLen(d.year, d.month)
  }

  /** What the calendar does at midnight. */
  function NextDate(d: Date): Date {
    if d.day < MonthLen(d.year, d.month) then Date(d.year, d.month, d.day + 1)
    else if d.month < 12 then Date(d.year, d.month + 1, 1)
    else Date(d.year + 1, 1, 1)
  }

  /** The date after `n` midnights since 2000-01-01. */
  function DateOf(n: nat): Date {
    if n == 0 then Date(0, 1, 1) else NextDate(DateOf(n - 1))
  }

  const CUM := [0, 31, 59, 90, 120, 151, 181, 212, 243, 273, 304, 334]

  function Clamp(x: int, lo: int, hi: int): int {
    if x < lo then lo else if x > hi then hi else x
  }

  /** Days from 2000-01-01, in closed form; out-of-range register values are clamped. */
  function DaysSince2000(year: nat, month: nat, day: nat): nat {
    var leapDaysBefore := (year + 3) / 4;
    var leapThis := if year % 4 == 0 && month > 2 then 1 else 0;
    year * 365 + leapDaysBefore + CUM[Clamp(month, 1, 12) - 1] + leapThis + (if day < 1 then 1 else day) - 1
  }

  lemma CumIsMonths(year: nat, month: nat)
    requires 1 <= month < 12
    ensures CUM[month] == CUM[month - 1] + (if month == 2 then 28 else MonthLen(year, month))
  {
  }

  /** The closed form steps with the calendar: one day more at each midnight of the century. */
  lemma NextDateIsOneDayMore(d: Date)
    requires ValidDate(d) && NextDate(d).year <= 99
    ensures ValidDate(NextDate(d))
    ensures DaysSince2000(NextDate(d).year, NextDate(d).month, NextDate(d).day) == DaysSince2000(d.year, d.month, d.day) + 1
  {
    assert Leap(d.year) <==> d.year % 4 == 0;
    if d.day == MonthLen(d.year, d.month) {
      if d.month < 12 {
        CumIsMonths(d.year, d.month);
      } else {
        assert CUM[11] == 334 && CUM[0] == 0;
        assert (d.year + 1 + 3) / 4 == (d.year + 3) / 4 + (if d.year % 4 == 0 then 1 else 0);
      }
    }
    hide Leap;
  }

  /** Hence it counts midnights, for every day of 2000..2099. */
  lemma {:induction false} ClosedFormCountsDays(n: nat)
    requires n < DAYS
    ensures ValidDate(DateOf(n))
    ensures DaysSince2000(DateOf(n).year, DateOf(n).month, DateOf(n).day) == n
  {
    if n > 0 {
      ClosedFormCountsDays(n - 1);
      var d := DateOf(n - 1);
      assert d != Date(99, 12, 31);
      assert NextDate(d).year <= 99;
      NextDateIsOneDayMore(d);
    }
  }

  // ---- the registers -----------------------------------------------------------------

  /** Time and date registers, in binary-coded decimal. */
  datatype Tr = Tr(ht: nat, hu: nat, mnt: nat, mnu: nat, st: nat, su: nat)
  datatype Dr = Dr(yt: nat, yu: nat, mt: nat, mu: nat, dt: nat, du: nat)

  function Bcd(tens: nat, units: nat): nat {
    tens * 10 + units
  }

  function TrAt(second: nat): Tr {
    var s := second % 86400;
    var h, m, r := s / 3600, s / 60 % 60, s % 60;
    Tr(h / 10, h % 10, m / 10, m % 10, r / 10, r % 10)
  }

  function DrAt(second: nat): Dr {
    var d := DateOf(second / 86400);
    Dr(d.year / 10, d.year % 10, d.month / 10, d.month % 10, d.day / 10, d.day % 10)
  }

  function SecondOf(tick: nat, prediv: nat): nat {
    Quot(tick, prediv + 1)
  }

  /** The sub-second counter counts down from `prediv` within each second. */
  function SsAt(tick: nat, prediv: nat): nat {
    prediv - tick % (prediv + 1)
  }

  /** The milliseconds `NowMs` computes from one set of register values. */
  function Computed(tr: Tr, dr: Dr, ss: nat, prediv: nat): nat {
    var days := DaysSince2000(Bcd(dr.yt, dr.yu), Bcd(dr.mt, dr.mu), Bcd(dr.dt, dr.du));
    var secs := ((days * 24 + Bcd(tr.ht, tr.hu)) * 60 + Bcd(tr.mnt, tr.mnu)) * 60 + Bcd(tr.st, tr.su);
    secs * 1000 + Quot((if prediv < ss then 0 else prediv - ss) * 1000, prediv + 1)
  }

  /** The true time of a tick. */
  function Millis(tick: nat, prediv: nat): nat {
    Quot(tick * 1000, prediv + 1)
  }

  lemma SecondBack(second: nat)
    requires second < DAYS * 86400
    ensures var tr, dr := TrAt(second), DrAt(second);
      var days := DaysSince2000(Bcd(dr.yt, dr.yu), Bcd(dr.mt, dr.mu), Bcd(dr.dt, dr.du));
      ((days * 24 + Bcd(tr.ht, tr.hu)) * 60 + Bcd(tr.mnt, tr.mnu)) * 60 + Bcd(tr.st, tr.su) == second
  {
    var day, s := second / 86400, second % 86400;
    ClosedFormCountsDays(day);
    var h, m, r := s / 3600, s / 60 % 60, s % 60;
    assert s == (h * 60 + m) * 60 + r;
    assert second == day * 86400 + s;
    hide DaysSince2000, DateOf;
  }

  lemma ComputedFrom(second: nat, sub: nat, prediv: nat)
    requires second < DAYS * 86400 && sub <= prediv
    ensures Computed(TrAt(second), DrAt(second), prediv - sub, prediv) == second * 1000 + Quot(sub * 1000, prediv + 1)
  {
    SecondBack(second);
    hide DaysSince2000, DrAt, TrAt, Quot;
  }

  lemma MillisFrom(tick: nat, prediv: nat)
    ensures Millis(tick, prediv) == SecondOf(tick, prediv) * 1000 + Quot(tick % (prediv + 1) * 1000, prediv + 1)
  {
    var p := prediv + 1;
    assert tick == (tick / p) * p + tick % p;
    assert tick * 1000 == (tick / p * 1000) * p + tick % p * 1000;
    DivAdd(tick / p * 1000, tick % p * 1000, p);
  }

  /** Registers of one tick give the true time of that tick. */
  lemma ComputedIsTrue(tick: nat, prediv: nat)
    requires SecondOf(tick, prediv) < DAYS * 86400
    ensures Computed(TrAt(SecondOf(tick, prediv)), DrAt(SecondOf(tick, prediv)), SsAt(tick, prediv), prediv) == Millis(tick, prediv)
  {
    hide Computed, Quot, Millis, TrAt, DrAt, SecondOf;
    MillisFrom(tick, prediv);
    ComputedFrom(SecondOf(tick, prediv), tick % (prediv + 1), prediv);
  }

  lemma MillisMonotone(a: nat, b: nat, prediv: nat)
    requires a <= b
    ensures Millis(a, prediv) <= Millis(b, prediv)
  {
    DivMonotone(a * 1000, b * 1000, prediv + 1);
  }

  /** The stability test: equal sub-second counts less than a second apart are one and the same tick. */
  lemma SameCountSameTick(a: nat, b: nat, prediv: nat)
    requires a <= b && b - a < prediv + 1 && SsAt(a, prediv) == SsAt(b, prediv)
    ensures a == b
  {
    var p := prediv + 1;
    assert a == (a / p) * p + a % p && b == (b / p) * p + b % p;
    var d := b / p - a / p;
    assert b - a == d * p;
    if d >= 1 {
      MulMonotone(1, d, p);
    } else if d <= -1 {
      MulMonotone(d, -1, p);
    }
  }

  // ---- reading it while it ticks -----------------------------------------------------

  class Clock {
    const prediv: nat
    /** The tick at each register read: arbitrary, but time does not run backwards. */
    const tickAt: nat -> nat
    var taken: nat
    var lastMs: nat

    ghost predicate Valid() {
      && (forall j: nat, k: nat :: j <= k ==> tickAt(j) <= tickAt(k))
      && (forall k: nat :: SecondOf(tickAt(k), prediv) < DAYS * 86400)
    }

    constructor (prediv: nat, tickAt: nat -> nat)
      ensures this.prediv == prediv && this.tickAt == tickAt && taken == 0 && lastMs == 0
    {
      this.prediv, this.tickAt, taken, lastMs := prediv, tickAt, 0, 0;
    }

    method ReadSs() returns (ss: nat)
      modifies this`taken
      ensures taken == old(taken) + 1 && ss == SsAt(tickAt(old(taken)), prediv)
    {
      ss := SsAt(tickAt(taken), prediv);
      taken := taken + 1;
    }

    method ReadTr() returns (tr: Tr)
      modifies this`taken
      ensures taken == old(taken) + 1 && tr == TrAt(SecondOf(tickAt(old(taken)), prediv))
    {
      tr := TrAt(SecondOf(tickAt(taken), prediv));
      taken := taken + 1;
    }

    method ReadDr() returns (dr: Dr)
      modifies this`taken
      ensures taken == old(taken) + 1 && dr == DrAt(SecondOf(tickAt(old(taken)), prediv))
    {
      dr := DrAt(SecondOf(tickAt(taken), prediv));
      taken := taken + 1;
    }

    /** The tick of the last register read. */
    function Now(): nat
      requires taken > 0
      reads this
    {
      tickAt(taken - 1)
    }

    /** A read that ended in one piece: the four last register reads within one second, with equal
        sub-second counts around the calendar's. */
    ghost predicate Stable()
      requires taken >= 4
      reads this
    {
      tickAt(taken - 1) - tickAt(taken - 4) < prediv + 1 && SsAt(tickAt(taken - 4), prediv) == SsAt(tickAt(taken - 1), prediv)
    }

    lemma Later(j: nat, k: nat)
      requires Valid() && j <= k
      ensures tickAt(j) <= tickAt(k)
    {
    }

    lemma InRange(k: nat)
      requires Valid()
      ensures SecondOf(tickAt(k), prediv) < DAYS * 86400
    {
    }

    /** One try: the calendar, then the sub-second count again, `ss` being the count before it. */
    method Try(ss: nat) returns (ms: nat, ssAfter: nat)
      requires Valid() && taken > 0 && ss == SsAt(tickAt(taken - 1), prediv)
      modifies this`taken
      ensures taken == old(taken) + 3 && ssAfter == SsAt(tickAt(taken - 1), prediv)
      ensures tickAt(taken - 4) <= tickAt(taken - 1)
      ensures ss != ssAfter ==> tickAt(taken - 4) < tickAt(taken - 1)
      ensures Stable() ==> ms == Millis(Now(), prediv)
    {
      hide Valid, TrAt, DrAt, SsAt, Computed, Millis, SecondOf;
      ghost var first := taken - 1;
      var tr := ReadTr();
      var dr := ReadDr();
      ssAfter := ReadSs();
      ms := Computed(tr, dr, ss, prediv);
      Later(first, first + 1);
      Later(first + 1, first + 2);
      Later(first + 2, first + 3);
      if ss == ssAfter && tickAt(first + 3) - tickAt(first) < prediv + 1 {
        SameCountSameTick(tickAt(first), tickAt(first + 3), prediv);
        InRange(first);
        ComputedIsTrue(tickAt(first), prediv);
      }
    }

    /** At most five tries; fewer only on equal counts. */
    method ReadCalendar() returns (ms: nat)
      requires Valid()
      modifies this`taken
      ensures old(taken) + 4 <= taken <= old(taken) + 16
      ensures taken < old(taken) + 16 ==> SsAt(tickAt(taken - 4), prediv) == SsAt(tickAt(taken - 1), prediv)
      ensures Stable() ==> ms == Millis(Now(), prediv)
      ensures Now() - tickAt(old(taken)) <= 4 && prediv >= 4 ==> Stable()
    {
      hide Valid, SsAt, Millis, SecondOf;
      var ss := ReadSs();
      ms := 0;
      var n := 0;
      while true
        invariant 0 <= n < 5 && taken == old(taken) + 1 + 3 * n
        invariant ss == SsAt(tickAt(taken - 1), prediv)
        invariant tickAt(taken - 1) - tickAt(old(taken)) >= n
        decreases 5 - n
      {
        var ssAfter;
        ms, ssAfter := Try(ss);
        if ss == ssAfter {
          break;
        }
        ss := ssAfter;
        n := n + 1;
        if n == 5 {
          break;
        }
      }
    }

    /** Milliseconds since the calendar's origin. */
    method NowMs() returns (t: nat)
      requires Valid()
      modifies this
      // It never goes back, torn reads included.
      ensures t >= old(lastMs) && lastMs == t
      ensures old(taken) + 4 <= taken <= old(taken) + 16
      ensures taken < old(taken) + 16 ==> SsAt(tickAt(taken - 4), prediv) == SsAt(tickAt(taken - 1), prediv)
      // A read in one piece is the true time of its tick, or the latest time given out before.
      ensures Stable() ==> t == if Millis(Now(), prediv) >= old(lastMs) then Millis(Now(), prediv) else old(lastMs)
      // So without an overshoot before, it is exact, and overshoots nothing after.
      ensures Stable() && old(lastMs) <= Millis(tickAt(old(taken)), prediv) ==> t == Millis(Now(), prediv) <= Millis(tickAt(taken), prediv)
      // Five tries are enough when the calendar ticks at most four times meanwhile.
      ensures Now() - tickAt(old(taken)) <= 4 && prediv >= 4 ==> Stable()
    {
      hide Valid, SsAt, Millis, SecondOf;
      var ms := ReadCalendar();
      Later(old(taken), taken - 1);
      MillisMonotone(tickAt(old(taken)), tickAt(taken - 1), prediv);
      Later(taken - 1, taken);
      MillisMonotone(tickAt(taken - 1), tickAt(taken), prediv);
      t := if ms >= lastMs then ms else lastMs;
      lastMs := t;
    }
  }
}
