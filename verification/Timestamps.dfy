/**
  UTC timestamps as the ledger stores them: ISO 8601 text that leaves out the fraction when the
  microseconds are zero. Comparing the text is comparing the instants.
 */
module Timestamps {

  datatype Stamp = Stamp(year: nat, month: nat, day: nat, hour: nat, minute: nat, second: nat, micro: nat)

  predicate IsLeap(year: nat) {
    year % 4 == 0 && (year % 100 != 0 || year % 400 == 0)
  }

  function DaysInMonth(year: nat, month: nat): nat {
    if month == 2 then if IsLeap(year) then 29 else 28
    else if month == 4 || month == 6 || month == 9 || month == 11 then 30
    else 31
  }

  predicate IsValid(t: Stamp) {
    && 1 <= t.year <= 9999 && 1 <= t.month <= 12 && 1 <= t.day <= DaysInMonth(t.year, t.month)
    && t.hour < 24 && t.minute < 60 && t.second < 60 && t.micro < 1_000_000
  }

  // ----- instants -----

  function DaysInYear(year: nat): nat {
    if IsLeap(year) then 366 else 365
  }

  /** Days from 1 January of year 1 to 1 January of `year`. */
  function DaysBeforeYear(year: nat): nat {
    if year <= 1 then 0 else DaysBeforeYear(year - 1) + DaysInYear(year - 1)
  }

  function DaysBeforeMonth(year: nat, month: nat): nat {
    if month <= 1 then 0 else DaysBeforeMonth(year, month - 1) + DaysInMonth(year, month - 1)
  }

  function DayNumber(t: Stamp): nat {
    DaysBeforeYear(t.year) + DaysBeforeMonth(t.year, t.month) + t.day
  }

  function MicrosOfDay(t: Stamp): nat {
    ((t.hour * 60 + t.minute) * 60 + t.second) * 1_000_000 + t.micro
  }

  const MICROS_PER_DAY: nat := 86_400_000_000

  /** Microseconds on the time line. */
  function Instant(t: Stamp): int {
    DayNumber(t) * MICROS_PER_DAY + MicrosOfDay(t)
  }

  // ----- text -----

  function Digit(d: nat): char
    requires d < 10
  {
    "0123456789"[d]
  }

  /** `n` in decimal, padded with zeros to `width` digits. */
  function Padded(n: nat, width: nat): (s: string)
    ensures |s| == width
  {
    if width == 0 then "" else Padded(n / 10, width - 1) + [Digit(n % 10)]
  }

  function Offset(): string { "+00:00" }

  function Tail(micro: nat): string {
    if micro == 0 then Offset() else "." + (Padded(micro, 6) + Offset())
  }

  function IsoFormat(t: Stamp): string {
    Padded(t.year, 4) + ("-" + (Padded(t.month, 2) + ("-" + (Padded(t.day, 2) + ("T" + ClockText(t))))))
  }

  function ClockText(t: Stamp): string {
    Padded(t.hour, 2) + (":" + (Padded(t.minute, 2) + (":" + (Padded(t.second, 2) + Tail(t.micro)))))
  }

  /** The order of text: by the first character that differs, a proper prefix first. */
  predicate TextLess(a: string, b: string) {
    b != "" && (a == "" || a[0] < b[0] || (a[0] == b[0] && TextLess(a[1..], b[1..])))
  }

  // ----- text order, field by field -----

  lemma {:induction false} SplitOrder(a: string, b: string, x: string, y: string)
    requires |a| == |b|
    ensures TextLess(a + x, b + y) <==> TextLess(a, b) || (a == b && TextLess(x, y))
  {
    if a == "" {
      assert a + x == x && b + y == y;
    } else {
      assert (a + x)[1..] == a[1..] + x && (b + y)[1..] == b[1..] + y;
      SplitOrder(a[1..], b[1..], x, y);
      assert a == [a[0]] + a[1..] && b == [b[0]] + b[1..];
    }
  }

  function Pow10(width: nat): nat {
    if width == 0 then 1 else 10 * Pow10(width - 1)
  }

  lemma {:induction false} PaddedOrder(n: nat, m: nat, width: nat)
    requires n < Pow10(width) && m < Pow10(width)
    ensures TextLess(Padded(n, width), Padded(m, width)) <==> n < m
    ensures Padded(n, width) == Padded(m, width) <==> n == m
  {
    if width > 0 {
      var a, b := Padded(n / 10, width - 1), Padded(m / 10, width - 1);
      var x, y := [Digit(n % 10)], [Digit(m % 10)];
      PaddedOrder(n / 10, m / 10, width - 1);
      SplitOrder(a, b, x, y);
      DigitOrder(n % 10, m % 10);
      assert a + x == b + y <==> a == b && x == y by {
        assert (a + x)[..width - 1] == a && (b + y)[..width - 1] == b;
        assert (a + x)[width - 1..] == x && (b + y)[width - 1..] == y;
      }
    }
  }

  lemma DigitOrder(d: nat, e: nat)
    requires d < 10 && e < 10
    ensures TextLess([Digit(d)], [Digit(e)]) <==> d < e
    ensures [Digit(d)] == [Digit(e)] <==> d == e
  {
    assert Digit(d) as int == 48 + d && Digit(e) as int == 48 + e;
  }

  lemma FieldOrder(n: nat, m: nat, width: nat, x: string, y: string)
    requires n < Pow10(width) && m < Pow10(width)
    ensures TextLess(Padded(n, width) + x, Padded(m, width) + y) <==> n < m || (n == m && TextLess(x, y))
  {
    PaddedOrder(n, m, width);
    SplitOrder(Padded(n, width), Padded(m, width), x, y);
  }

  lemma SeparatorOrder(c: char, x: string, y: string)
    ensures TextLess([c] + x, [c] + y) <==> TextLess(x, y)
  {
    assert ([c] + x)[1..] == x && ([c] + y)[1..] == y;
  }

  /** The fraction: a missing one is smaller than any, because '+' is smaller than '.'. */
  lemma TailOrder(m: nat, n: nat)
    requires m < 1_000_000 && n < 1_000_000
    ensures TextLess(Tail(m), Tail(n)) <==> m < n
  {
    assert Pow10(6) == 1_000_000;
    if m > 0 && n > 0 {
      SeparatorOrder('.', Padded(m, 6) + Offset(), Padded(n, 6) + Offset());
      FieldOrder(m, n, 6, Offset(), Offset());
      NotLessThanItself(Offset());
    } else if m == 0 && n == 0 {
      NotLessThanItself(Offset());
    }
  }

  lemma {:induction false} NotLessThanItself(a: string)
    ensures !TextLess(a, a)
  {
    if a != "" {
      NotLessThanItself(a[1..]);
    }
  }

  ghost predicate ClockLess(a: Stamp, b: Stamp) {
    || a.hour < b.hour
    || (a.hour == b.hour &&
        (|| a.minute < b.minute
         || (a.minute == b.minute && (a.second < b.second || (a.second == b.second && a.micro < b.micro)))))
  }

  ghost predicate DateLess(a: Stamp, b: Stamp) {
    || a.year < b.year
    || (a.year == b.year && (a.month < b.month || (a.month == b.month && a.day < b.day)))
  }

  ghost predicate SameDate(a: Stamp, b: Stamp) {
    a.year == b.year && a.month == b.month && a.day == b.day
  }

  lemma ClockTextOrder(a: Stamp, b: Stamp)
    requires IsValid(a) && IsValid(b)
    ensures TextLess(ClockText(a), ClockText(b)) <==> ClockLess(a, b)
  {
    assert Pow10(2) == 100;
    var a3, b3 := Padded(a.second, 2) + Tail(a.micro), Padded(b.second, 2) + Tail(b.micro);
    var a2, b2 := Padded(a.minute, 2) + (":" + a3), Padded(b.minute, 2) + (":" + b3);
    FieldOrder(a.hour, b.hour, 2, ":" + a2, ":" + b2);
    SeparatorOrder(':', a2, b2);
    FieldOrder(a.minute, b.minute, 2, ":" + a3, ":" + b3);
    SeparatorOrder(':', a3, b3);
    FieldOrder(a.second, b.second, 2, Tail(a.micro), Tail(b.micro));
    TailOrder(a.micro, b.micro);
  }

  lemma IsoOrder(a: Stamp, b: Stamp)
    requires IsValid(a) && IsValid(b)
    ensures TextLess(IsoFormat(a), IsoFormat(b)) <==> DateLess(a, b) || (SameDate(a, b) && ClockLess(a, b))
  {
    assert Pow10(2) == 100 && Pow10(4) == 10_000;
    var a3, b3 := Padded(a.day, 2) + ("T" + ClockText(a)), Padded(b.day, 2) + ("T" + ClockText(b));
    var a2, b2 := Padded(a.month, 2) + ("-" + a3), Padded(b.month, 2) + ("-" + b3);
    FieldOrder(a.year, b.year, 4, "-" + a2, "-" + b2);
    SeparatorOrder('-', a2, b2);
    FieldOrder(a.month, b.month, 2, "-" + a3, "-" + b3);
    SeparatorOrder('-', a3, b3);
    FieldOrder(a.day, b.day, 2, "T" + ClockText(a), "T" + ClockText(b));
    SeparatorOrder('T', ClockText(a), ClockText(b));
    ClockTextOrder(a, b);
  }

  /** After the seconds comes the offset, behind a fraction exactly if there is one to show. */
  lemma IsoTail(t: Stamp)
    ensures |IsoFormat(t)| >= 19
    ensures IsoFormat(t)[19..] == if t.micro == 0 then "+00:00" else "." + Padded(t.micro, 6) + "+00:00"
  {
    var clock := ClockText(t);
    assert clock == Padded(t.hour, 2) + ":" + Padded(t.minute, 2) + ":" + Padded(t.second, 2) + Tail(t.micro);
    assert clock[8..] == Tail(t.micro);
    assert IsoFormat(t) == Padded(t.year, 4) + "-" + Padded(t.month, 2) + "-" + Padded(t.day, 2) + "T" + clock;
    assert IsoFormat(t)[11..] == clock;
  }

  // ----- the calendar -----

  lemma {:induction false} YearsPass(y: nat, y': nat)
    requires 1 <= y < y'
    ensures DaysBeforeYear(y) + DaysInYear(y) <= DaysBeforeYear(y')
  {
    if y' > y + 1 {
      YearsPass(y, y' - 1);
    }
  }

  lemma {:induction false} MonthsPass(year: nat, m: nat, m': nat)
    requires 1 <= m < m'
    ensures DaysBeforeMonth(year, m) + DaysInMonth(year, m) <= DaysBeforeMonth(year, m')
  {
    if m' > m + 1 {
      MonthsPass(year, m, m' - 1);
    }
  }

  lemma MonthsFillTheYear(year: nat)
    ensures DaysBeforeMonth(year, 13) == DaysInYear(year)
  {
    var february := DaysInMonth(year, 2);
    assert DaysBeforeMonth(year, 2) == 31;
    assert DaysBeforeMonth(year, 3) == 31 + february;
    assert DaysBeforeMonth(year, 4) == 62 + february;
    assert DaysBeforeMonth(year, 5) == 92 + february;
    assert DaysBeforeMonth(year, 6) == 123 + february;
    assert DaysBeforeMonth(year, 7) == 153 + february;
    assert DaysBeforeMonth(year, 8) == 184 + february;
    assert DaysBeforeMonth(year, 9) == 215 + february;
    assert DaysBeforeMonth(year, 10) == 245 + february;
    assert DaysBeforeMonth(year, 11) == 276 + february;
    assert DaysBeforeMonth(year, 12) == 306 + february;
  }

  /** The proleptic Gregorian calendar counted in closed form: a leap year every four years, but not every
      hundred, but every four hundred. */
  lemma {:induction false} YearsInClosedForm(year: nat)
    requires year >= 1
    ensures var y := year - 1; DaysBeforeYear(year) == 365 * y + y / 4 - y / 100 + y / 400
  {
    if year > 1 {
      YearsInClosedForm(year - 1);
      LeapDay(year - 1);
    }
  }

  lemma LeapDay(year: nat)
    requires year >= 1
    ensures
      year / 4 - year / 100 + year / 400
      == (year - 1) / 4 - (year - 1) / 100 + (year - 1) / 400 + if IsLeap(year) then 1 else 0
  {
    Quotient(year, 4);
    Quotient(year, 100);
    Quotient(year, 400);
    assert year % 400 == 0 ==> year % 100 == 0;
    assert year % 100 == 0 ==> year % 4 == 0;
  }

  lemma Quotient(n: nat, d: nat)
    requires n >= 1 && d in {4, 100, 400}
    ensures n / d == (n - 1) / d + if n % d == 0 then 1 else 0
  {
  }

  /** And the months in closed form. */
  lemma MonthsInClosedForm(year: nat, month: nat)
    requires 1 <= month <= 12
    ensures DaysBeforeMonth(year, month)
         == (367 * month - 362) / 12 - if month <= 2 then 0 else if IsLeap(year) then 1 else 2
  {
    assert DaysBeforeMonth(year, 2) == 31;
    assert DaysBeforeMonth(year, 3) == 31 + DaysInMonth(year, 2);
    assert DaysBeforeMonth(year, 4) == DaysBeforeMonth(year, 3) + 31;
    assert DaysBeforeMonth(year, 5) == DaysBeforeMonth(year, 3) + 61;
    assert DaysBeforeMonth(year, 6) == DaysBeforeMonth(year, 3) + 92;
    assert DaysBeforeMonth(year, 7) == DaysBeforeMonth(year, 3) + 122;
    assert DaysBeforeMonth(year, 8) == DaysBeforeMonth(year, 3) + 153;
    assert DaysBeforeMonth(year, 9) == DaysBeforeMonth(year, 3) + 184;
    assert DaysBeforeMonth(year, 10) == DaysBeforeMonth(year, 3) + 214;
    assert DaysBeforeMonth(year, 11) == DaysBeforeMonth(year, 3) + 245;
    assert DaysBeforeMonth(year, 12) == DaysBeforeMonth(year, 3) + 275;
  }

  function NextDay(t: Stamp): Stamp {
    if t.day < DaysInMonth(t.year, t.month) then t.(day := t.day + 1)
    else if t.month < 12 then t.(day := 1, month := t.month + 1)
    else t.(day := 1, month := 1, year := t.year + 1)
  }

  /** The stamp one microsecond later, carried field by field. */
  function Next(t: Stamp): Stamp {
    if t.micro < 999_999 then t.(micro := t.micro + 1)
    else if t.second < 59 then t.(micro := 0, second := t.second + 1)
    else if t.minute < 59 then t.(micro := 0, second := 0, minute := t.minute + 1)
    else if t.hour < 23 then t.(micro := 0, second := 0, minute := 0, hour := t.hour + 1)
    else NextDay(t.(micro := 0, second := 0, minute := 0, hour := 0))
  }

  lemma NextDayIsOneMore(t: Stamp)
    requires IsValid(t)
    ensures DayNumber(NextDay(t)) == DayNumber(t) + 1
    ensures NextDay(t).year <= 9999 ==> IsValid(NextDay(t))
  {
    if t.day == DaysInMonth(t.year, t.month) {
      if t.month < 12 {
        assert DaysBeforeMonth(t.year, t.month + 1) == DaysBeforeMonth(t.year, t.month) + DaysInMonth(t.year, t.month);
      } else {
        MonthsFillTheYear(t.year);
        assert DaysBeforeMonth(t.year, 13) == DaysBeforeMonth(t.year, 12) + DaysInMonth(t.year, 12);
        assert DaysBeforeYear(t.year + 1) == DaysBeforeYear(t.year) + DaysInYear(t.year);
      }
    }
  }

  /** The time line has no gaps and no jumps: the next microsecond is one more. */
  lemma NextIsOneMore(t: Stamp)
    requires IsValid(t)
    ensures Instant(Next(t)) == Instant(t) + 1
    ensures Next(t).year <= 9999 ==> IsValid(Next(t))
  {
    if t.micro == 999_999 && t.second == 59 && t.minute == 59 && t.hour == 23 {
      var midnight := t.(micro := 0, second := 0, minute := 0, hour := 0);
      NextDayIsOneMore(midnight);
      assert DayNumber(midnight) == DayNumber(t);
      assert MicrosOfDay(t) == MICROS_PER_DAY - 1 && MicrosOfDay(Next(t)) == 0;
    }
  }

  lemma DateOrder(a: Stamp, b: Stamp)
    requires IsValid(a) && IsValid(b) && DateLess(a, b)
    ensures DayNumber(a) < DayNumber(b)
  {
    if a.year < b.year {
      YearsPass(a.year, b.year);
      MonthsPass(a.year, a.month, 13);
      MonthsFillTheYear(a.year);
    } else if a.month < b.month {
      MonthsPass(a.year, a.month, b.month);
    }
  }

  lemma InstantOrder(a: Stamp, b: Stamp)
    requires IsValid(a) && IsValid(b)
    ensures Instant(a) < Instant(b) <==> DateLess(a, b) || (SameDate(a, b) && ClockLess(a, b))
  {
    assert MicrosOfDay(a) < MICROS_PER_DAY && MicrosOfDay(b) < MICROS_PER_DAY;
    if DateLess(a, b) {
      DateOrder(a, b);
    } else if DateLess(b, a) {
      DateOrder(b, a);
    } else {
      assert SameDate(a, b);
    }
  }

  /** How two stored times compare: as text. */
  predicate StoredBefore(a: Stamp, b: Stamp) {
    TextLess(IsoFormat(a), IsoFormat(b))
  }

  /** Comparing stored texts is comparing instants, fraction or not. */
  lemma TextOrderIsTimeOrder(a: Stamp, b: Stamp)
    requires IsValid(a) && IsValid(b)
    ensures StoredBefore(a, b) <==> Instant(a) < Instant(b)
  {
    IsoOrder(a, b);
    InstantOrder(a, b);
  }
}
