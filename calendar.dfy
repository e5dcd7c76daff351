/** Proleptic Gregorian calendar dates and the two JavaScript `Date` adjustments
    the certificate uses (`setDate(getDate() - n)`, `setFullYear(getFullYear() + n)`),
    plus date-fns' `dd/MM/yyyy` rendering. */
module Calendar {
  import opened Common
  import opened Text

  datatype Date = Date(year: int, month: int, day: int)

  predicate IsLeap(y: int) {
    (y % 4 == 0 && y % 100 != 0) || y % 400 == 0
  }

  function DaysInMonth(y: int, m: int): (n: int)
    requires 1 <= m <= 12
    ensures 28 <= n <= 31
    ensures m == 2 ==> (n == 29 <==> IsLeap(y))
  {
    if m == 2 then (if IsLeap(y) then 29 else 28)
    else if m == 4 || m == 6 || m == 9 || m == 11 then 30
    else 31
  }

  predicate Valid(d: Date) {
    1 <= d.month <= 12 && 1 <= d.day <= DaysInMonth(d.year, d.month)
  }

  /** The following day. */
  function NextDay(d: Date): (n: Date)
    requires Valid(d)
    ensures Valid(n)
  {
    if d.day < DaysInMonth(d.year, d.month) then d.(day := d.day + 1)
    else if d.month < 12 then Date(d.year, d.month + 1, 1)
    else Date(d.year + 1, 1, 1)
  }

  /** The preceding day. */
  function PrevDay(d: Date): (p: Date)
    requires Valid(d)
    ensures Valid(p)
  {
    if d.day > 1 then d.(day := d.day - 1)
    else if d.month > 1 then Date(d.year, d.month - 1, DaysInMonth(d.year, d.month - 1))
    else Date(d.year - 1, 12, 31)
  }

  lemma NextOfPrev(d: Date)
    requires Valid(d)
    ensures NextDay(PrevDay(d)) == d
  {
  }

  lemma PrevOfNext(d: Date)
    requires Valid(d)
    ensures PrevDay(NextDay(d)) == d
  {
  }

  /** n days earlier (`setDate(getDate() - n)`, which rolls into earlier months and years). */
  function MinusDays(d: Date, n: nat): (r: Date)
    requires Valid(d)
    ensures Valid(r)
  {
    if n == 0 then d else PrevDay(MinusDays(d, n - 1))
  }

  /** n days later. */
  function PlusDays(d: Date, n: nat): (r: Date)
    requires Valid(d)
    ensures Valid(r)
    decreases n
  {
    if n == 0 then d else PlusDays(NextDay(d), n - 1)
  }

  /** Going back n days and forward n days returns to the same date. */
  lemma {:induction false} PlusMinus(d: Date, n: nat)
    requires Valid(d)
    ensures PlusDays(MinusDays(d, n), n) == d
  {
    if n > 0 {
      var m := MinusDays(d, n - 1);
      NextOfPrev(m);
      PlusMinus(d, n - 1);
    }
  }

  /** n days later is the day after n - 1 days later. */
  lemma {:induction false} PlusDaysLast(d: Date, n: nat)
    requires Valid(d)
    ensures PlusDays(d, n + 1) == NextDay(PlusDays(d, n))
    decreases n
  {
    if n > 0 {
      PlusDaysLast(NextDay(d), n - 1);
    }
  }

  const EPOCH: Date := Date(1970, 1, 1)
  const MS_PER_DAY: int := 86400000

  /** The calendar day of a timestamp in milliseconds since 1970-01-01T00:00Z, read
      in UTC; `/` rounds towards minus infinity, so an instant before the epoch falls
      on a day before it. */
  function DateOf(t: Time): (d: Date)
    ensures Valid(d)
    ensures 0 <= t < MS_PER_DAY ==> d == EPOCH
  {
    var days := t / MS_PER_DAY;
    if days >= 0 then PlusDays(EPOCH, days) else MinusDays(EPOCH, -days)
  }

  /** A timestamp one day later falls on the next calendar day. */
  lemma DateOfNextDay(t: Time)
    ensures DateOf(t + MS_PER_DAY) == NextDay(DateOf(t))
  {
    var days := t / MS_PER_DAY;
    assert (t + MS_PER_DAY) / MS_PER_DAY == days + 1;
    if days >= 0 {
      PlusDaysLast(EPOCH, days);
    } else {
      NextOfPrev(MinusDays(EPOCH, -days - 1));
    }
  }

  /** `setFullYear(getFullYear() + n)`: same month and day, except that 29 February
      in a non-leap target year overflows to 1 March. */
  function AddYears(d: Date, n: int): (r: Date)
    requires Valid(d)
    ensures Valid(r)
    ensures r.year == d.year + n
    ensures !(d.month == 2 && d.day == 29) || IsLeap(d.year + n) ==> r.month == d.month && r.day == d.day
    ensures d.month == 2 && d.day == 29 && !IsLeap(d.year + n) ==> r.month == 3 && r.day == 1
  {
    if d.month == 2 && d.day == 29 && !IsLeap(d.year + n) then Date(d.year + n, 3, 1)
    else Date(d.year + n, d.month, d.day)
  }

  /** date-fns' `y` token prints the year of the era: 1 BC (year 0) is 1. */
  function YearOfEra(y: int): (e: nat)
    ensures e >= 1
    ensures y > 0 ==> e == y
  {
    if y > 0 then y else 1 - y
  }

  /** `format(d, 'dd/MM/yyyy')`. */
  function FormatDate(d: Date): (r: string)
    requires Valid(d)
    ensures YearOfEra(d.year) < 10000 ==>
      && |r| == 10 && r[2] == '/' && r[5] == '/'
      && AllDigits(r[..2]) && DigitsValue(r[..2]) == d.day
      && AllDigits(r[3..5]) && DigitsValue(r[3..5]) == d.month
      && AllDigits(r[6..]) && DigitsValue(r[6..]) == YearOfEra(d.year)
  {
    var dd := ZeroPadded(d.day, 2);
    var mm := ZeroPadded(d.month, 2);
    var yyyy := ZeroPadded(YearOfEra(d.year), 4);
    SlashJoin(dd, mm, yyyy);
    dd + "/" + mm + "/" + yyyy
  }

  /** The pieces of `a/b/c` for two-character a and b. */
  lemma SlashJoin(a: string, b: string, c: string)
    requires |a| == 2 && |b| == 2
    ensures var r := a + "/" + b + "/" + c;
      r[2] == '/' && r[5] == '/' && r[..2] == a && r[3..5] == b && r[6..] == c
  {
  }
}
