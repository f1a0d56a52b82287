/**
 * The countdown shown under every task: the time between a task's deadline
 * and the current time, broken into days, hours, minutes and seconds, the
 * text displayed for it and whether it is flagged as urgent.
 *
 * Times are integer milliseconds, as returned by `Date.getTime()`; the
 * current time is a parameter instead of a clock reading.
 */
module Countdown {

  // Unit lengths in milliseconds, written as literals below as the source writes
  // them as products of literals: a second is 1000, a minute 60000, an hour
  // 3600000 and a day 86400000.

  /** Below this much time left a task is urgent: two hours. */
  const UrgentBelow: nat := 7200000

  /** The text shown for a task whose deadline has passed. */
  const OverdueText: string := "\U{23F0} OVERDUE!"

  /** The text every other countdown starts with. */
  const TimeLeftPrefix: string := "\U{23F1}\U{FE0F} Time Left: "

  /** A non-negative duration in whole units; the milliseconds below one second are dropped. */
  datatype Breakdown = Breakdown(days: nat, hours: nat, minutes: nat, seconds: nat)

  /** The three layouts of the remaining-time text. */
  datatype Shown =
    | DaysHoursMinutes(days: nat, hours: nat, minutes: nat)
    | HoursMinutesSeconds(hours: nat, minutes: nat, seconds: nat)
    | MinutesSeconds(minutes: nat, seconds: nat)

  /** What the countdown displays: its text and the urgency flag. */
  datatype TimeLeft = TimeLeft(text: string, isUrgent: bool)

  /** The milliseconds that a breakdown stands for. */
  function Millis(b: Breakdown): int
  {
    b.days * 86400000 + b.hours * 3600000 + b.minutes * 60000 + b.seconds * 1000
  }

  /** A breakdown whose fields are within their clock ranges. */
  predicate InRange(b: Breakdown)
  {
    b.hours < 24 && b.minutes < 60 && b.seconds < 60
  }

  /**
   * The days, hours, minutes and seconds in `diff` milliseconds, each the
   * floor of the part of `diff` below the next larger unit divided by the unit.
   */
  function Decompose(diff: nat): (b: Breakdown)
    ensures InRange(b)
    ensures Millis(b) + diff % 1000 == diff
  {
    NestedRemainders(diff);
    Breakdown(diff / 86400000,
              (diff % 86400000) / 3600000,
              (diff % 3600000) / 60000,
              (diff % 60000) / 1000)
  }

  /** The layout chosen for a breakdown: the first of days, hours, minutes that is non-zero leads. */
  function Layout(b: Breakdown): (s: Shown)
    ensures s.DaysHoursMinutes? <==> b.days > 0
    ensures s.HoursMinutesSeconds? <==> b.days == 0 && b.hours > 0
    ensures s.MinutesSeconds? <==> b.days == 0 && b.hours == 0
  {
    if b.days > 0 then DaysHoursMinutes(b.days, b.hours, b.minutes)
    else if b.hours > 0 then HoursMinutesSeconds(b.hours, b.minutes, b.seconds)
    else MinutesSeconds(b.minutes, b.seconds)
  }

  /** The decimal digits of `n`, as a template literal prints a non-negative integer. */
  function Digits(n: nat): (r: string)
    ensures |r| > 0
    ensures forall i :: 0 <= i < |r| ==> IsDigit(r[i])
    decreases n
  {
    if n < 10 then [DigitChar(n)] else Digits(n / 10) + [DigitChar(n % 10)]
  }

  predicate IsDigit(c: char)
  {
    '0' <= c <= '9'
  }

  function DigitChar(d: nat): (c: char)
    requires d < 10
    ensures IsDigit(c)
  {
    ['0', '1', '2', '3', '4', '5', '6', '7', '8', '9'][d]
  }

  /** The number a string of decimal digits denotes: the inverse of `Digits`. */
  function ValueOf(s: string): nat
    requires forall i :: 0 <= i < |s| ==> IsDigit(s[i])
  {
    if s == [] then 0 else ValueOf(s[..|s| - 1]) * 10 + DigitValue(s[|s| - 1])
  }

  function DigitValue(c: char): (d: nat)
    requires IsDigit(c)
    ensures d < 10
  {
    (c as int) - ('0' as int)
  }

  /** The text after the prefix, for each layout. */
  function Body(s: Shown): (r: string)
    ensures |r| > 0 && IsDigit(r[0])
  {
    match s
    case DaysHoursMinutes(d, h, m) =>
      Digits(d) + ("d " + (Digits(h) + ("h " + (Digits(m) + "m"))))
    case HoursMinutesSeconds(h, m, sec) =>
      Digits(h) + ("h " + (Digits(m) + ("m " + (Digits(sec) + "s"))))
    case MinutesSeconds(m, sec) =>
      Digits(m) + ("m " + (Digits(sec) + "s"))
  }

  function Text(s: Shown): (r: string)
    ensures TimeLeftPrefix <= r
    ensures r != OverdueText
  {
    TimeLeftPrefix + Body(s)
  }

  /**
   * The countdown for a task due at `deadline` when the clock reads `now`.
   * Overdue exactly when the deadline is strictly in the past; urgent when
   * overdue or less than two hours are left.
   */
  function GetTimeLeft(deadline: int, now: int): (r: TimeLeft)
    ensures r.isUrgent <==> deadline - now < UrgentBelow
    ensures r.text == OverdueText <==> deadline < now
  {
    var diff := deadline - now;
    if diff < 0 then
      TimeLeft(OverdueText, true)
    else
      var b := Decompose(diff);
      TimeLeft(Text(Layout(b)), b.days == 0 && b.hours < 2)
  }

  /**
   * The remainder by a larger unit, taken again by a smaller one, is the
   * remainder by the smaller one: each unit is a whole multiple of the next.
   */
  lemma NestedRemainders(n: nat)
    ensures (n % 86400000) % 3600000 == n % 3600000
    ensures (n % 3600000) % 60000 == n % 60000
    ensures (n % 60000) % 1000 == n % 1000
  {
    var q, r := n / 86400000, n % 86400000;
    assert n == (q * 24 + r / 3600000) * 3600000 + r % 3600000;
    q, r := n / 3600000, n % 3600000;
    assert n == (q * 60 + r / 60000) * 60000 + r % 60000;
    q, r := n / 60000, n % 60000;
    assert n == (q * 60 + r / 1000) * 1000 + r % 1000;
  }

  /** No other breakdown in range with a sub-second remainder gives the same duration. */
  lemma DecomposeUnique(diff: nat, b: Breakdown, ms: int)
    requires InRange(b) && 0 <= ms < 1000
    requires Millis(b) + ms == diff
    ensures b == Decompose(diff) && ms == diff % 1000
  {
    var rest := b.hours * 3600000 + b.minutes * 60000 + b.seconds * 1000 + ms;
    assert diff / 86400000 == b.days && diff % 86400000 == rest;
    var restH := b.minutes * 60000 + b.seconds * 1000 + ms;
    assert rest / 3600000 == b.hours && rest % 3600000 == restH;
    var restM := b.seconds * 1000 + ms;
    assert restH / 60000 == b.minutes && restH % 60000 == restM;
    assert restM / 1000 == b.seconds && restM % 1000 == ms;
    NestedRemainders(diff);
  }

  /**
   * Which layout the text uses, by the time left: days once a full day is
   * left, hours once a full hour is left, minutes and seconds otherwise; and
   * the numbers shown are the breakdown's.
   */
  lemma LayoutByTimeLeft(diff: nat)
    ensures var s := Layout(Decompose(diff));
      && (s.DaysHoursMinutes? <==> diff >= 86400000)
      && (s.HoursMinutesSeconds? <==> 3600000 <= diff < 86400000)
      && (s.MinutesSeconds? <==> diff < 3600000)
      && (s.DaysHoursMinutes? ==> s.days >= 1 && s.hours < 24 && s.minutes < 60)
      && (s.HoursMinutesSeconds? ==> 1 <= s.hours < 24 && s.minutes < 60 && s.seconds < 60)
      && (s.MinutesSeconds? ==> s.minutes < 60 && s.seconds < 60)
    ensures var b, s := Decompose(diff), Layout(Decompose(diff));
      && (s.DaysHoursMinutes? ==> s.days == b.days && s.hours == b.hours && s.minutes == b.minutes)
      && (s.HoursMinutesSeconds? ==> s.hours == b.hours && s.minutes == b.minutes && s.seconds == b.seconds)
      && (s.MinutesSeconds? ==> s.minutes == b.minutes && s.seconds == b.seconds)
  {
  }

  /** Urgency for a deadline not yet passed: the days are zero and the hours below two, that is less than two hours left. */
  lemma UrgentIffUnderTwoHours(deadline: int, now: int)
    requires deadline >= now
    ensures var b := Decompose(deadline - now);
      GetTimeLeft(deadline, now).isUrgent <==> b.days == 0 && b.hours < 2
    ensures GetTimeLeft(deadline, now).isUrgent <==> deadline - now < UrgentBelow
  {
  }

  /** `ValueOf` reads back what `Digits` writes. */
  lemma {:induction false} ValueOfDigits(n: nat)
    ensures ValueOf(Digits(n)) == n
    decreases n
  {
    var s := Digits(n);
    if n >= 10 {
      ValueOfDigits(n / 10);
      assert s[..|s| - 1] == Digits(n / 10);
    }
  }

  /**
   * A number written in decimal followed by a non-digit can be read back:
   * the number and the text after it are both determined.
   */
  lemma DigitsThen(a: nat, b: nat, x: string, y: string)
    requires |x| > 0 && !IsDigit(x[0]) && |y| > 0 && !IsDigit(y[0])
    requires Digits(a) + x == Digits(b) + y
    ensures a == b && x == y
  {
    var da, db := Digits(a), Digits(b);
    assert (da + x)[|da|] == x[0] && (db + y)[|db|] == y[0];
    assert forall k :: 0 <= k < |da| ==> (da + x)[k] == da[k];
    assert forall k :: 0 <= k < |db| ==> (db + y)[k] == db[k];
    assert da == (da + x)[..|da|] == (db + y)[..|db|] == db;
    assert x == (da + x)[|da|..] == (db + y)[|db|..] == y;
    ValueOfDigits(a);
    ValueOfDigits(b);
  }

  /** Two strings that share a prefix agree after it. */
  lemma DropCommonPrefix(p: string, u: string, v: string)
    requires p + u == p + v
    ensures u == v
  {
    assert u == (p + u)[|p|..];
    assert v == (p + v)[|p|..];
  }

  lemma DropLabel(c: char, u: string, v: string)
    requires [c, ' '] + u == [c, ' '] + v
    ensures u == v
  {
    DropCommonPrefix([c, ' '], u, v);
  }

  /** The text of a countdown tells its layout and every number in it. */
  lemma TextInjective(s: Shown, t: Shown)
    requires Text(s) == Text(t)
    ensures s == t
  {
    DropCommonPrefix(TimeLeftPrefix, Body(s), Body(t));
    match s
    case DaysHoursMinutes(d, h, m) =>
      match t {
        case DaysHoursMinutes(d', h', m') =>
          DigitsThen(d, d', "d " + (Digits(h) + ("h " + (Digits(m) + "m"))),
                            "d " + (Digits(h') + ("h " + (Digits(m') + "m"))));
          DropLabel('d', Digits(h) + ("h " + (Digits(m) + "m")), Digits(h') + ("h " + (Digits(m') + "m")));
          DigitsThen(h, h', "h " + (Digits(m) + "m"), "h " + (Digits(m') + "m"));
          DropLabel('h', Digits(m) + "m", Digits(m') + "m");
          DigitsThen(m, m', "m", "m");
        case HoursMinutesSeconds(h', m', sec') =>
          DigitsThen(d, h', "d " + (Digits(h) + ("h " + (Digits(m) + "m"))),
                            "h " + (Digits(m') + ("m " + (Digits(sec') + "s"))));
        case MinutesSeconds(m', sec') =>
          DigitsThen(d, m', "d " + (Digits(h) + ("h " + (Digits(m) + "m"))),
                            "m " + (Digits(sec') + "s"));
      }
    case HoursMinutesSeconds(h, m, sec) =>
      match t {
        case DaysHoursMinutes(d', h', m') =>
          DigitsThen(h, d', "h " + (Digits(m) + ("m " + (Digits(sec) + "s"))),
                            "d " + (Digits(h') + ("h " + (Digits(m') + "m"))));
        case HoursMinutesSeconds(h', m', sec') =>
          DigitsThen(h, h', "h " + (Digits(m) + ("m " + (Digits(sec) + "s"))),
                            "h " + (Digits(m') + ("m " + (Digits(sec') + "s"))));
          DropLabel('h', Digits(m) + ("m " + (Digits(sec) + "s")), Digits(m') + ("m " + (Digits(sec') + "s")));
          DigitsThen(m, m', "m " + (Digits(sec) + "s"), "m " + (Digits(sec') + "s"));
          DropLabel('m', Digits(sec) + "s", Digits(sec') + "s");
          DigitsThen(sec, sec', "s", "s");
        case MinutesSeconds(m', sec') =>
          DigitsThen(h, m', "h " + (Digits(m) + ("m " + (Digits(sec) + "s"))),
                            "m " + (Digits(sec') + "s"));
      }
    case MinutesSeconds(m, sec) =>
      match t {
        case DaysHoursMinutes(d', h', m') =>
          DigitsThen(m, d', "m " + (Digits(sec) + "s"),
                            "d " + (Digits(h') + ("h " + (Digits(m') + "m"))));
        case HoursMinutesSeconds(h', m', sec') =>
          DigitsThen(m, h', "m " + (Digits(sec) + "s"),
                            "h " + (Digits(m') + ("m " + (Digits(sec') + "s"))));
        case MinutesSeconds(m', sec') =>
          DigitsThen(m, m', "m " + (Digits(sec) + "s"), "m " + (Digits(sec') + "s"));
          DropLabel('m', Digits(sec) + "s", Digits(sec') + "s");
          DigitsThen(sec, sec', "s", "s");
      }
  }

  /**
   * Two deadlines show the same countdown text at the same moment only if
   * both are overdue or both agree on every unit the text shows.
   */
  lemma SameTextSameShown(d1: int, d2: int, now: int)
    requires GetTimeLeft(d1, now).text == GetTimeLeft(d2, now).text
    ensures (d1 < now && d2 < now) || (d1 >= now && d2 >= now && SameShown(d1 - now, d2 - now))
  {
    if d1 >= now && d2 >= now {
      TextInjective(Layout(Decompose(d1 - now)), Layout(Decompose(d2 - now)));
    }
  }

  /** Two durations agree on every number their countdown text shows. */
  predicate SameShown(a: nat, b: nat)
  {
    var x, y := Decompose(a), Decompose(b);
    x.days == y.days && x.hours == y.hours && x.minutes == y.minutes &&
    (x.days == 0 ==> x.seconds == y.seconds)
  }

  /** Ninety seconds left: minutes and seconds, urgent. */
  lemma NinetySecondsLeft(now: int)
    ensures GetTimeLeft(now + 90000, now) == TimeLeft(TimeLeftPrefix + "1m 30s", true)
  {
    DecomposeUnique(90000, Breakdown(0, 0, 1, 30), 0);
    assert Digits(30) == Digits(3) + ['0'];
  }

  /** Three hours left: hours, minutes and seconds, not urgent. */
  lemma ThreeHoursLeft(now: int)
    ensures GetTimeLeft(now + 10800000, now) == TimeLeft(TimeLeftPrefix + "3h 0m 0s", false)
  {
    DecomposeUnique(10800000, Breakdown(0, 3, 0, 0), 0);
  }

  /** Twenty-five hours left: days, hours and minutes, not urgent. */
  lemma TwentyFiveHoursLeft(now: int)
    ensures GetTimeLeft(now + 90000000, now) == TimeLeft(TimeLeftPrefix + "1d 1h 0m", false)
  {
    DecomposeUnique(90000000, Breakdown(1, 1, 0, 0), 0);
  }

  /** The deadline is the current moment: not overdue, zero minutes and seconds, urgent. */
  lemma DeadlineNow(now: int)
    ensures GetTimeLeft(now, now) == TimeLeft(TimeLeftPrefix + "0m 0s", true)
    ensures GetTimeLeft(now - 1, now) == TimeLeft(OverdueText, true)
  {
  }
}
