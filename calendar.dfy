/**
  What the date filter of src/lib/store.ts takes from JavaScript's `Date` and `Number`:
  proleptic Gregorian day arithmetic as `new Date(y, m, d)`, `setDate` and `Date.UTC` perform
  it (a month index outside 0..11 and a day outside the month roll over, and a two-digit year
  0..99 means 1900..1999), `Number(...)` on the filter's text fields, and `String(n)` and
  `padStart(2, '0')` on the numbers it prints. A number is an `int` or `NaN`, written `None`.
 */
module Calendar {
  import opened Wrappers
  import opened Text

  // ------------------------------------------------------------- calendar

  predicate IsLeap(year: int)
  {
    (year % 4 == 0 && year % 100 != 0) || year % 400 == 0
  }

  function DaysInMonth(year: int, month: int): (r: int)
    requires 1 <= month <= 12
    ensures 28 <= r <= 31
  {
    if month == 2 then (if IsLeap(year) then 29 else 28)
    else if month == 4 || month == 6 || month == 9 || month == 11 then 30
    else 31
  }

  /** A calendar day; `month` counts from 1. */
  datatype Civil = Civil(year: int, month: int, day: int)

  predicate Valid(c: Civil)
  {
    1 <= c.month <= 12 && 1 <= c.day <= DaysInMonth(c.year, c.month)
  }

  function NextDay(c: Civil): (r: Civil)
    requires Valid(c)
    ensures Valid(r)
  {
    if c.day < DaysInMonth(c.year, c.month) then c.(day := c.day + 1)
    else if c.month < 12 then Civil(c.year, c.month + 1, 1)
    else Civil(c.year + 1, 1, 1)
  }

  function PrevDay(c: Civil): (r: Civil)
    requires Valid(c)
    ensures Valid(r)
  {
    if c.day > 1 then c.(day := c.day - 1)
    else if c.month > 1 then Civil(c.year, c.month - 1, DaysInMonth(c.year, c.month - 1))
    else Civil(c.year - 1, 12, 31)
  }

  lemma PrevOfNext(c: Civil)
    requires Valid(c)
    ensures PrevDay(NextDay(c)) == c
  {
  }

  lemma NextOfPrev(c: Civil)
    requires Valid(c)
    ensures NextDay(PrevDay(c)) == c
  {
  }

  /** The day `k` days after `c` (before it when `k` is negative). */
  function AddDays(c: Civil, k: int): (r: Civil)
    requires Valid(c)
    ensures Valid(r)
    decreases if k < 0 then -k else k
  {
    if k == 0 then c
    else if k > 0 then AddDays(NextDay(c), k - 1)
    else AddDays(PrevDay(c), k + 1)
  }

  lemma AddDaysNext(c: Civil, k: int)
    requires Valid(c)
    ensures AddDays(NextDay(c), k) == AddDays(c, k + 1)
  {
    if k < 0 {
      PrevOfNext(c);
    }
  }

  lemma AddDaysPrev(c: Civil, k: int)
    requires Valid(c)
    ensures AddDays(PrevDay(c), k) == AddDays(c, k - 1)
  {
    if k > 0 {
      NextOfPrev(c);
    }
  }

  /** Moving `a` days and then `b` days is moving `a + b` days. */
  lemma {:induction false} AddDaysAdd(c: Civil, a: int, b: int)
    requires Valid(c)
    ensures AddDays(AddDays(c, a), b) == AddDays(c, a + b)
    decreases if a < 0 then -a else a
  {
    if a > 0 {
      AddDaysAdd(NextDay(c), a - 1, b);
      AddDaysNext(c, a - 1 + b);
    } else if a < 0 {
      AddDaysAdd(PrevDay(c), a + 1, b);
      AddDaysPrev(c, a + 1 + b);
    }
  }

  /** Counting `d - 1` days from the first of a month reaches its day `d`. */
  lemma {:induction false} DaysIntoMonth(year: int, month: int, day: int)
    requires Valid(Civil(year, month, day))
    ensures AddDays(Civil(year, month, 1), day - 1) == Civil(year, month, day)
    decreases day
  {
    if day > 1 {
      DaysIntoMonth(year, month, day - 1);
      AddDaysAdd(Civil(year, month, 1), day - 2, 1);
    }
  }

  /**
    The day `MakeDay(year, monthIndex, day)` designates: the month index rolls over into the
    years (floor division by 12) and the day counts from the first of that month.
   */
  function MakeDate(year: int, monthIndex: int, day: int): (r: Civil)
    ensures Valid(r)
  {
    AddDays(Civil(year + monthIndex / 12, monthIndex % 12 + 1, 1), day - 1)
  }

  /** For an existing day, the constructor arguments (month counted from 0) give that day back. */
  lemma MakeDateOfCivil(c: Civil)
    requires Valid(c)
    ensures MakeDate(c.year, c.month - 1, c.day) == c
  {
    DaysIntoMonth(c.year, c.month, c.day);
  }

  /** `setDate(c.day + k)` on an existing day moves it by `k` days, whatever `k` is. */
  lemma SetDateMoves(c: Civil, k: int)
    requires Valid(c)
    ensures MakeDate(c.year, c.month - 1, c.day + k) == AddDays(c, k)
  {
    var first := Civil(c.year, c.month, 1);
    MonthIndexBack(c.year, c.month);
    assert MakeDate(c.year, c.month - 1, c.day + k) == AddDays(first, (c.day - 1) + k);
    DaysIntoMonth(c.year, c.month, c.day);
    AddDaysAdd(first, c.day - 1, k);
  }

  /** A month counted from 0 names the same year and month. */
  lemma MonthIndexBack(year: int, month: int)
    requires 1 <= month <= 12
    ensures year + (month - 1) / 12 == year && (month - 1) % 12 + 1 == month
  {
  }

  /** Day 0 of the month after `month` is the last day of `month`. */
  lemma LastDayOfMonth(year: int, month: int)
    requires 1 <= month <= 12
    ensures MakeDate(year, month, 0) == Civil(year, month, DaysInMonth(year, month))
  {
    var first := if month == 12 then Civil(year + 1, 1, 1) else Civil(year, month + 1, 1);
    assert Civil(year + month / 12, month % 12 + 1, 1) == first;
    assert AddDays(first, -1) == AddDays(PrevDay(first), 0);
  }

  /** The `0..99 → 1900..1999` rule of the `Date` constructor and of `Date.UTC`. */
  function FullYear(year: int): int
  {
    if 0 <= year <= 99 then 1900 + year else year
  }

  // -------------------------------------------------------------- numbers

  /**
    `Number(s)` for text that is, after trimming white space, empty (0) or an optionally signed
    run of decimal digits; any other text is taken as `NaN`.
   */
  function NumberOf(s: string): Option<int>
  {
    var t := Trim(s);
    if |t| == 0 then Some(0)
    else if AllDigits(t) then Some(DigitsValue(t))
    else if |t| > 1 && (t[0] == '-' || t[0] == '+') && AllDigits(t[1..]) then
      var v: int := DigitsValue(t[1..]);
      Some(if t[0] == '-' then -v else v)
    else None
  }

  /** `Number(parts[i])` where a missing element is `undefined`, hence `NaN`. */
  function NumberAt(parts: seq<string>, i: nat): Option<int>
  {
    if i < |parts| then NumberOf(parts[i]) else None
  }

  /** `String(n)`. */
  function NumStr(n: Option<int>): string
  {
    match n
    case None => "NaN"
    case Some(v) => if v < 0 then "-" + NatToString(-v) else NatToString(v)
  }

  /** `String(n).padStart(2, '0')`. */
  function Pad2(n: Option<int>): string
  {
    var s := NumStr(n);
    if |s| < 2 then "0" + s else s
  }

  /** `n - k` where `NaN` stays `NaN`. */
  function Minus(n: Option<int>, k: int): Option<int>
  {
    match n
    case None => None
    case Some(v) => Some(v - k)
  }

  lemma DigitsNotSpace(s: string)
    requires |s| > 0 && AllDigits(s)
    ensures Trim(s) == s
  {
    TrimUnchanged(s);
  }

  /** `Number(String(n))` is `n` for a natural number. */
  lemma NumberOfNat(n: nat)
    ensures NumberOf(NatToString(n)) == Some(n)
  {
    DigitsNotSpace(NatToString(n));
    NatToStringValue(n);
  }

  /** A day or month number padded to two digits is two digits. */
  lemma PaddedDigits(n: int)
    requires 0 <= n <= 99
    ensures |Pad2(Some(n))| == 2 && AllDigits(Pad2(Some(n)))
  {
    if n >= 10 {
      assert NatToString(n / 10) == [DigitChar(n / 10)];
    }
  }

  /** A day or month number padded to two digits reads back as itself. */
  lemma PaddedNumber(n: int)
    requires 0 <= n <= 99
    ensures NumberOf(Pad2(Some(n))) == Some(n)
  {
    var s := NatToString(n);
    NatToStringValue(n);
    PaddedDigits(n);
    if n < 10 {
      LeadingZeroValue(s);
      assert Pad2(Some(n)) == "0" + s;
      DigitsNotSpace("0" + s);
    } else {
      DigitsNotSpace(s);
    }
  }
}
