/** Calendar dates as (year, month, day) triples in the proleptic Gregorian
    calendar, the order the pages compare them by, and the day arithmetic
    that JavaScript's `new Date(year, monthIndex, day)` performs when the
    month or the day is out of range. Times of day and time zones play no
    part: every date stands for its midnight. */
module Dates {

  datatype Date = Date(year: int, month: int, day: int)

  /** `new Date(0)`: the sentinel every unreadable label resolves to. */
  const Epoch := Date(1970, 1, 1)

  predicate IsLeapYear(y: int)
  {
    y % 4 == 0 && (y % 100 != 0 || y % 400 == 0)
  }

  function DaysInMonth(y: int, m: int): (n: int)
    requires 1 <= m <= 12
    ensures 28 <= n <= 31
    ensures n == 31 <==> m in {1, 3, 5, 7, 8, 10, 12}
    ensures m == 2 ==> (n == 29 <==> IsLeapYear(y))
  {
    if m == 2 then (if IsLeapYear(y) then 29 else 28)
    else if m == 4 || m == 6 || m == 9 || m == 11 then 30
    else 31
  }

  /** A date that exists on the calendar. */
  predicate Valid(d: Date)
  {
    1 <= d.month <= 12 && 1 <= d.day <= DaysInMonth(d.year, d.month)
  }

  /** `a < b` on two `Date` objects: strictly earlier. */
  predicate Before(a: Date, b: Date)
  {
    a.year < b.year ||
    (a.year == b.year && (a.month < b.month || (a.month == b.month && a.day < b.day)))
  }

  lemma BeforeStrictTotalOrder(a: Date, b: Date, c: Date)
    ensures !Before(a, a)
    ensures Before(a, b) ==> !Before(b, a)
    ensures Before(a, b) && Before(b, c) ==> Before(a, c)
    ensures a == b || Before(a, b) || Before(b, a)
  {
  }

  // ---------------------------------------------------------------- stepping

  /** The day after `d`. */
  function Next(d: Date): (r: Date)
    requires Valid(d)
    ensures Valid(r) && Before(d, r)
  {
    if d.day < DaysInMonth(d.year, d.month) then Date(d.year, d.month, d.day + 1)
    else if d.month < 12 then Date(d.year, d.month + 1, 1)
    else Date(d.year + 1, 1, 1)
  }

  /** The day before `d`. */
  function Prev(d: Date): (r: Date)
    requires Valid(d)
    ensures Valid(r) && Before(r, d)
  {
    if d.day > 1 then Date(d.year, d.month, d.day - 1)
    else if d.month > 1 then Date(d.year, d.month - 1, DaysInMonth(d.year, d.month - 1))
    else Date(d.year - 1, 12, 31)
  }

  /** Stepping forward and back are inverse: no day is skipped or repeated. */
  lemma NextPrevInverse(d: Date)
    requires Valid(d)
    ensures Prev(Next(d)) == d && Next(Prev(d)) == d
  {
  }

  /** Nothing lies strictly between a day and the next one. */
  lemma NextIsImmediate(d: Date, e: Date)
    requires Valid(d) && Valid(e) && Before(d, e)
    ensures Next(d) == e || Before(Next(d), e)
  {
  }

  /** The date `k` days after `d` (before it when `k` is negative). */
  function Advance(d: Date, k: int): (r: Date)
    requires Valid(d)
    ensures Valid(r)
    ensures k > 0 ==> Before(d, r)
    ensures k < 0 ==> Before(r, d)
    ensures k == 0 ==> r == d
    decreases if k < 0 then -k else k
  {
    if k == 0 then d
    else if k > 0 then Advance(Next(d), k - 1)
    else Advance(Prev(d), k + 1)
  }

  /** Within a month, advancing only moves the day of the month. */
  lemma {:induction false} AdvanceWithinMonth(d: Date, k: nat)
    requires Valid(d) && d.day + k <= DaysInMonth(d.year, d.month)
    ensures Advance(d, k) == Date(d.year, d.month, d.day + k)
    decreases k
  {
    if k > 0 {
      AdvanceWithinMonth(Next(d), k - 1);
    }
  }

  lemma {:induction false} AdvanceAdd(d: Date, a: nat, b: nat)
    requires Valid(d)
    ensures Advance(Advance(d, a), b) == Advance(d, a + b)
    decreases a
  {
    if a > 0 {
      AdvanceAdd(Next(d), a - 1, b);
    }
  }

  /** Advancing past the end of a month carries into the next month. */
  lemma MonthCarry(y: int, m: int, k: nat)
    requires 1 <= m <= 12
    ensures Advance(Date(y, m, 1), DaysInMonth(y, m) + k) ==
            Advance(if m < 12 then Date(y, m + 1, 1) else Date(y + 1, 1, 1), k)
  {
    var n := DaysInMonth(y, m);
    var first := Date(y, m, 1);
    AdvanceWithinMonth(first, n - 1);
    AdvanceAdd(first, n - 1, 1 + k);
    assert Advance(Date(y, m, n), 1 + k) == Advance(Next(Date(y, m, n)), k);
  }

  // ------------------------------------------------- the Date constructor

  /** Two-digit years in the `Date` constructor mean the twentieth century. */
  function JsYear(y: int): (r: int)
    ensures 0 <= y <= 99 ==> r == 1900 + y
    ensures (y < 0 || y > 99) ==> r == y
  {
    if 0 <= y <= 99 then 1900 + y else y
  }

  /** `new Date(year, monthIndex, day)`: the month index counts from 0 and
      carries whole years; the day counts from the first of that month, so
      day 0 is the last day of the previous month and day 32 spills into
      the next one. */
  function MakeDate(year: int, monthIndex: int, day: int): (r: Date)
    ensures Valid(r)
  {
    var y := JsYear(year) + monthIndex / 12;
    var m := monthIndex % 12 + 1;
    Advance(Date(y, m, 1), day - 1)
  }

  /** For a date that exists (and a year the constructor does not read as
      two-digit), the constructor gives exactly that date. */
  lemma MakeDateExact(d: Date)
    requires Valid(d) && (d.year < 0 || d.year > 99)
    ensures MakeDate(d.year, d.month - 1, d.day) == d
  {
    assert MakeDate(d.year, d.month - 1, d.day) == Advance(Date(d.year, d.month, 1), d.day - 1) by {
      assert JsYear(d.year) == d.year && (d.month - 1) / 12 == 0 && (d.month - 1) % 12 + 1 == d.month;
    }
    AdvanceWithinMonth(Date(d.year, d.month, 1), d.day - 1);
  }

  /** A day past the end of the month is carried into the following month. */
  lemma MakeDateOverflow(year: int, month: int, k: nat)
    requires 1 <= month <= 12 && (year < 0 || year > 99)
    requires 1 <= k <= DaysInMonth(if month < 12 then year else year + 1, if month < 12 then month + 1 else 1)
    ensures MakeDate(year, month - 1, DaysInMonth(year, month) + k) ==
            (if month < 12 then Date(year, month + 1, k) else Date(year + 1, 1, k))
  {
    var n := DaysInMonth(year, month);
    var next := if month < 12 then Date(year, month + 1, 1) else Date(year + 1, 1, 1);
    assert MakeDate(year, month - 1, n + k) == Advance(Date(year, month, 1), n + k - 1) by {
      assert JsYear(year) == year && (month - 1) / 12 == 0 && (month - 1) % 12 + 1 == month;
    }
    assert Advance(Date(year, month, 1), n + k - 1) == Advance(next, k - 1) by {
      MonthCarry(year, month, k - 1);
    }
    AdvanceWithinMonth(next, k - 1);
  }

  /** `new Date(2023, 1, 30)` is the second of March 2023. */
  lemma MakeDateExample()
    ensures MakeDate(2023, 1, 30) == Date(2023, 3, 2)
    ensures MakeDate(24, 0, 5) == Date(1924, 1, 5)
  {
    MakeDateOverflow(2023, 2, 2);
    MakeDateExact(Date(1924, 1, 5));
  }
}
