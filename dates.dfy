/**
 * Calendar days and their text keys.
 *
 * A day is stored in the CA table under its full-date form `YYYY-MM-DD`
 * (section 5.6 of RFC 3339), written with zero-padded fields. A month is
 * selected with the prefix `YYYY-MM` of those keys. For four-digit years the
 * text order of keys is the calendar order of the days, which is why
 * `ORDER BY date` lists a month chronologically.
 */
module Dates {
  import opened Collation

  /** A calendar day in the proleptic Gregorian calendar. */
  datatype Date = Date(year: int, month: int, day: int) {
    /** A real day whose year has four digits. */
    predicate Valid()
    {
      0 <= year <= 9999 && 1 <= month <= 12 && 1 <= day <= DaysInMonth(year, month)
    }
  }

  predicate IsLeapYear(y: int)
  {
    (y % 4 == 0 && y % 100 != 0) || y % 400 == 0
  }

  function DaysInMonth(y: int, m: int): int
  {
    if m == 2 then (if IsLeapYear(y) then 29 else 28)
    else if m == 4 || m == 6 || m == 9 || m == 11 then 30
    else 31
  }

  /** Chronological order of days. */
  predicate Before(a: Date, b: Date)
  {
    a.year < b.year
    || (a.year == b.year && a.month < b.month)
    || (a.year == b.year && a.month == b.month && a.day < b.day)
  }

  /** The decimal digit character for `n`. */
  function Digit(n: int): (c: char)
    requires 0 <= n < 10
    ensures '0' <= c <= '9'
  {
    (48 + n) as char
  }

  /** `n` written with exactly two digits, zero-padded. */
  function Pad2(n: int): (s: string)
    requires 0 <= n < 100
    ensures |s| == 2
  {
    [Digit(n / 10), Digit(n % 10)]
  }

  /** `n` written with exactly four digits, zero-padded. */
  function Pad4(n: int): (s: string)
    requires 0 <= n < 10000
    ensures |s| == 4
  {
    Pad2(n / 100) + Pad2(n % 100)
  }

  /** The `YYYY-MM` prefix that selects the month of `d`. */
  function MonthPrefix(d: Date): (s: string)
    requires d.Valid()
    ensures |s| == 7 && s[4] == '-'
  {
    Pad4(d.year) + "-" + Pad2(d.month)
  }

  /** The `YYYY-MM-DD` key under which the day `d` is stored. */
  function DateKey(d: Date): (s: string)
    requires d.Valid()
    ensures |s| == 10 && s[4] == '-' && s[7] == '-'
    ensures MonthPrefix(d) <= s
  {
    MonthPrefix(d) + "-" + Pad2(d.day)
  }

  lemma DigitOrder(i: int, j: int)
    requires 0 <= i < 10 && 0 <= j < 10
    ensures Digit(i) < Digit(j) <==> i < j
    ensures Digit(i) == Digit(j) <==> i == j
  {
  }

  /** Two-digit fields compare, as text, like the numbers they write. */
  lemma Pad2Order(n: int, m: int)
    requires 0 <= n < 100 && 0 <= m < 100
    ensures Less(Pad2(n), Pad2(m)) <==> n < m
    ensures Pad2(n) == Pad2(m) <==> n == m
  {
    assert Pad2(n) == [Digit(n / 10)] + [Digit(n % 10)];
    assert Pad2(m) == [Digit(m / 10)] + [Digit(m % 10)];
    LessAppend([Digit(n / 10)], [Digit(m / 10)], [Digit(n % 10)], [Digit(m % 10)]);
    LessSingleton(Digit(n / 10), Digit(m / 10));
    LessSingleton(Digit(n % 10), Digit(m % 10));
    DigitOrder(n / 10, m / 10);
    DigitOrder(n % 10, m % 10);
    assert n == 10 * (n / 10) + n % 10;
    assert m == 10 * (m / 10) + m % 10;
  }

  /** Four-digit fields compare, as text, like the numbers they write. */
  lemma Pad4Order(n: int, m: int)
    requires 0 <= n < 10000 && 0 <= m < 10000
    ensures Less(Pad4(n), Pad4(m)) <==> n < m
    ensures Pad4(n) == Pad4(m) <==> n == m
  {
    LessAppend(Pad2(n / 100), Pad2(m / 100), Pad2(n % 100), Pad2(m % 100));
    Pad2Order(n / 100, m / 100);
    Pad2Order(n % 100, m % 100);
    assert n == 100 * (n / 100) + n % 100;
    assert m == 100 * (m / 100) + m % 100;
    if Pad4(n) == Pad4(m) {
      assert Pad4(n)[..2] == Pad2(n / 100) && Pad4(m)[..2] == Pad2(m / 100);
      assert Pad4(n)[2..] == Pad2(n % 100) && Pad4(m)[2..] == Pad2(m % 100);
    }
  }

  /**
   * Comparing `x + sep + y` with `x' + sep + y'` where `x` and `x'` have the
   * same length: the first fields decide unless they are equal.
   */
  lemma FieldsOrder(x: string, y: string, x': string, y': string)
    requires |x| == |x'|
    ensures Less(x + "-" + y, x' + "-" + y') <==> Less(x, x') || (x == x' && Less(y, y'))
    ensures x + "-" + y == x' + "-" + y' <==> x == x' && y == y'
  {
    assert x + "-" + y == x + ("-" + y);
    assert x' + "-" + y' == x' + ("-" + y');
    LessAppend(x, x', "-" + y, "-" + y');
    LessAppend("-", "-", y, y');
    LessIrreflexive("-");
    if x + "-" + y == x' + "-" + y' {
      assert (x + "-" + y)[..|x|] == x && (x' + "-" + y')[..|x|] == x';
      assert (x + "-" + y)[|x| + 1..] == y && (x' + "-" + y')[|x| + 1..] == y';
    }
  }

  /** Month prefixes are equal exactly for days of the same month. */
  lemma MonthPrefixInjective(a: Date, b: Date)
    requires a.Valid() && b.Valid()
    ensures MonthPrefix(a) == MonthPrefix(b) <==> a.year == b.year && a.month == b.month
  {
    FieldsOrder(Pad4(a.year), Pad2(a.month), Pad4(b.year), Pad2(b.month));
    Pad4Order(a.year, b.year);
    Pad2Order(a.month, b.month);
  }

  /**
   * The text order of keys is the calendar order of days, and keys are
   * equal exactly for equal days.
   */
  lemma {:induction false} KeyOrderIsChronological(a: Date, b: Date)
    requires a.Valid() && b.Valid()
    ensures Less(DateKey(a), DateKey(b)) <==> Before(a, b)
    ensures DateKey(a) == DateKey(b) <==> a == b
  {
    FieldsOrder(MonthPrefix(a), Pad2(a.day), MonthPrefix(b), Pad2(b.day));
    FieldsOrder(Pad4(a.year), Pad2(a.month), Pad4(b.year), Pad2(b.month));
    Pad4Order(a.year, b.year);
    Pad2Order(a.month, b.month);
    Pad2Order(a.day, b.day);
  }

  /**
   * The `LIKE 'YYYY-MM%'` filter of a month selects the key of a day exactly
   * when the day lies in that month.
   */
  lemma {:induction false} MonthFilterSelectsMonth(anchor: Date, d: Date)
    requires anchor.Valid() && d.Valid()
    ensures MonthPrefix(anchor) <= DateKey(d) <==> anchor.year == d.year && anchor.month == d.month
  {
    MonthPrefixInjective(anchor, d);
    assert DateKey(d)[..7] == MonthPrefix(d);
  }
}
