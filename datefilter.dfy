/**
  `filterDailyByDateRange` (src/lib/store.ts): the filter language `all`, `7d`/`28d`/`90d`/`365d`,
  `year:Y`, `month:Y-M` and `range:s..e`. Every window is inclusive at both ends and compared
  as strings (`d.date >= start && d.date <= end`); any other filter keeps the series as it is.
 */
module DateFilter {
  import opened Wrappers
  import opened Text
  import opened Types
  import opened Keyed
  import opened Calendar

  // ---------------------------------------------------------------- filter

  /** `s.filter(keep)`. */
  function Filter<T>(s: seq<T>, keep: T -> bool): seq<T>
    decreases |s|
  {
    if |s| == 0 then []
    else Filter(s[..|s| - 1], keep) + (if keep(s[|s| - 1]) then [s[|s| - 1]] else [])
  }

  /** `a` is `b` with some elements dropped and the others kept in their order. */
  predicate Subsequence<T(==)>(a: seq<T>, b: seq<T>)
    decreases |b|
  {
    if |a| == 0 then true
    else if |b| == 0 then false
    else (a[|a| - 1] == b[|b| - 1] && Subsequence(a[..|a| - 1], b[..|b| - 1])) || Subsequence(a, b[..|b| - 1])
  }

  /** What `filter` keeps: exactly the elements that pass the test. */
  lemma {:induction false} FilterMembers<T>(s: seq<T>, keep: T -> bool, x: T)
    ensures x in Filter(s, keep) <==> x in s && keep(x)
    decreases |s|
  {
    if |s| > 0 {
      var n := |s| - 1;
      FilterMembers(s[..n], keep, x);
      assert s == s[..n] + [s[n]];
    }
  }

  /** `filter` keeps its input's order. */
  lemma {:induction false} FilterSubsequence<T>(s: seq<T>, keep: T -> bool)
    ensures Subsequence(Filter(s, keep), s)
    decreases |s|
  {
    if |s| > 0 {
      var n := |s| - 1;
      var r := Filter(s, keep);
      FilterSubsequence(s[..n], keep);
      if keep(s[n]) {
        assert r[..|r| - 1] == Filter(s[..n], keep);
      } else {
        assert r == Filter(s[..n], keep) + [];
        assert r == Filter(s[..n], keep);
      }
    }
  }

  lemma {:induction false} SubsequenceOfItself<T>(s: seq<T>)
    ensures Subsequence(s, s)
    decreases |s|
  {
    if |s| > 0 {
      SubsequenceOfItself(s[..|s| - 1]);
    }
  }

  /** Filtering a series that is strictly ascending by date leaves it strictly ascending. */
  lemma {:induction false} FilterSorted(s: seq<DailyMetrics>, keep: DailyMetrics -> bool)
    requires SortedBy(s, DateOf)
    ensures SortedBy(Filter(s, keep), DateOf)
    decreases |s|
  {
    if |s| > 0 {
      var n := |s| - 1;
      assert KeysOf(s[..n], DateOf) == KeysOf(s, DateOf)[..n];
      FilterSorted(s[..n], keep);
      var r, head := Filter(s, keep), Filter(s[..n], keep);
      if keep(s[n]) {
        var ks, hs := KeysOf(r, DateOf), KeysOf(head, DateOf);
        forall i, j | 0 <= i < j < |ks| ensures Less(ks[i], ks[j]) {
          if j == |r| - 1 {
            FilterMembers(s[..n], keep, r[i]);
            var p :| 0 <= p < n && s[p] == r[i];
            assert ks[i] == KeysOf(s, DateOf)[p];
            assert ks[j] == KeysOf(s, DateOf)[n];
          } else {
            assert ks[i] == hs[i] && ks[j] == hs[j];
          }
        }
      } else {
        assert r == head + [];
        assert r == head;
      }
    }
  }

  lemma NoMembersEmpty<T>(s: seq<T>)
    ensures (forall x :: x !in s) ==> s == []
  {
    if |s| > 0 {
      assert s[0] in s;
    }
  }

  // ---------------------------------------------------------------- windows

  /**
    What a filter keeps: everything (the input is returned as it is), or the records that
    `d => d.date >= lo && d.date <= hi` accepts.
   */
  datatype Window = Everything | Between(lo: string, hi: Option<string>)

  /**
    The test `d => d.date >= lo && d.date <= hi`. An `undefined` upper bound (None) makes the
    comparison false, so nothing passes.
   */
  function InWindow(lo: string, hi: Option<string>): DailyMetrics -> bool
  {
    (d: DailyMetrics) => hi.Some? && LessEq(lo, d.date) && LessEq(d.date, hi.value)
  }

  /** `formatLocal(d)`: an invalid date prints as `NaN-NaN-NaN`. */
  function FormatLocal(date: Option<Civil>): string
  {
    match date
    case None => "NaN-NaN-NaN"
    case Some(c) => NumStr(Some(c.year)) + "-" + Pad2(Some(c.month)) + "-" + Pad2(Some(c.day))
  }

  /** `parseLocal(s)`: `new Date(y, m - 1, d)` from the first three `-`-separated fields. */
  function ParseLocal(dateStr: string): Option<Civil>
  {
    var parts := Split(dateStr, "-");
    LocalDate(NumberAt(parts, 0), NumberAt(parts, 1), NumberAt(parts, 2))
  }

  /** `new Date(y, m - 1, d)`, invalid when a field is `NaN`. */
  function LocalDate(y: Option<int>, m: Option<int>, d: Option<int>): Option<Civil>
  {
    if y.None? || m.None? || d.None? then None
    else Some(MakeDate(FullYear(y.value), m.value - 1, d.value))
  }

  /** `date.getDate()`. */
  function GetDate(date: Option<Civil>): Option<int>
  {
    match date
    case None => None
    case Some(c) => Some(c.day)
  }

  /** `setDate(day)` applied to a copy of `date`. */
  function SetDate(date: Option<Civil>, day: Option<int>): Option<Civil>
  {
    if date.None? || day.None? then None
    else Some(MakeDate(date.value.year, date.value.month - 1, day.value))
  }

  /** `lastNDays(n)`: the window ends at the last record's date and starts `n - 1` days before. */
  function LastNDays(daily: seq<DailyMetrics>, n: int): Window
  {
    if |daily| == 0 then Everything
    else
      var endStr := daily[|daily| - 1].date;
      WindowEndingAt(endStr, ParseLocal(endStr), n)
  }

  /** The `n`-day window ending at `endStr`, which reads as the date `end`. */
  function WindowEndingAt(endStr: string, end: Option<Civil>, n: int): Window
  {
    var start := SetDate(end, Minus(GetDate(end), n - 1));
    Between(FormatLocal(start), Some(endStr))
  }

  /** `filter.split(':')[1]` exists once the filter starts with `tag:`. */
  lemma PayloadAfterTag(filter: string, tag: string)
    requires StartsWith(filter, tag + ":") && AvoidsChars(tag, ":")
    ensures |Split(filter, ":")| >= 2
    ensures Split(filter, ":")[1] == Split(filter[|tag| + 1..], ":")[0]
  {
    assert filter == tag + ":" + filter[|tag| + 1..];
    SplitAfter(tag, ":", filter[|tag| + 1..]);
  }

  /** `filter.split(':')[1]`. */
  function Payload(filter: string, tag: string): string
    requires StartsWith(filter, tag + ":") && AvoidsChars(tag, ":")
  {
    PayloadAfterTag(filter, tag);
    Split(filter, ":")[1]
  }

  /** The `year:` branch, from the text after the colon. */
  function YearWindow(payload: string): Window
  {
    var year := NumberOf(payload);
    Between(NumStr(year) + "-01-01", Some(NumStr(year) + "-12-31"))
  }

  /**
    The `month:` branch, from the text after the colon. The printed year is the number as
    given, while the last day comes from `Date.UTC`, which reads a year 0..99 as 1900..1999.
   */
  function MonthWindow(ym: string): Window
  {
    var parts := Split(ym, "-");
    MonthOf(NumberAt(parts, 0), NumberAt(parts, 1))
  }

  /** The month window from the year and month numbers read from `Y-MM`. */
  function MonthOf(y: Option<int>, m: Option<int>): Window
  {
    var startStr := NumStr(y) + "-" + Pad2(m) + "-01";
    var lastDay := if y.None? || m.None? then None else Some(MakeDate(FullYear(y.value), m.value, 0).day);
    var endStr := NumStr(y) + "-" + Pad2(m) + "-" + Pad2(lastDay);
    Between(startStr, Some(endStr))
  }

  /** The `range:` branch, from the text after the colon; a missing `..` leaves no end bound. */
  function RangeWindow(payload: string): Window
  {
    var bounds := Split(payload, "..");
    Between(bounds[0], if |bounds| > 1 then Some(bounds[1]) else None)
  }

  /** Which window the filter text selects, checked in the source's order. */
  function WindowOf(daily: seq<DailyMetrics>, filter: string): Window
  {
    if filter == "all" then Everything
    else if filter == "7d" then LastNDays(daily, 7)
    else if filter == "28d" then LastNDays(daily, 28)
    else if filter == "90d" then LastNDays(daily, 90)
    else if filter == "365d" then LastNDays(daily, 365)
    else TaggedWindow(filter)
  }

  /** The filters written `tag:payload`; any other text keeps everything. */
  function TaggedWindow(filter: string): Window
  {
    if StartsWith(filter, "year:") then YearWindow(Payload(filter, "year"))
    else if StartsWith(filter, "month:") then MonthWindow(Payload(filter, "month"))
    else if StartsWith(filter, "range:") then RangeWindow(Payload(filter, "range"))
    else Everything
  }

  function Apply(daily: seq<DailyMetrics>, w: Window): seq<DailyMetrics>
  {
    match w
    case Everything => daily
    case Between(lo, hi) => Filter(daily, InWindow(lo, hi))
  }

  /** The source's function; the unused `today` is not modelled. */
  function FilterDailyByDateRange(daily: seq<DailyMetrics>, filter: string): seq<DailyMetrics>
  {
    Apply(daily, WindowOf(daily, filter))
  }

  // ----------------------------------------------------------------- facts

  predicate Recognised(filter: string)
  {
    filter in ["7d", "28d", "90d", "365d"]
      || StartsWith(filter, "year:") || StartsWith(filter, "month:") || StartsWith(filter, "range:")
  }

  /**
    Every filter keeps an order-preserving part of the series (and so keeps a sorted series
    sorted), an empty series stays empty, and `all` or an unrecognised filter changes nothing.
   */
  lemma FilterShape(daily: seq<DailyMetrics>, filter: string)
    ensures Subsequence(FilterDailyByDateRange(daily, filter), daily)
    ensures SortedBy(daily, DateOf) ==> SortedBy(FilterDailyByDateRange(daily, filter), DateOf)
    ensures |daily| == 0 ==> FilterDailyByDateRange(daily, filter) == []
    ensures filter == "all" || !Recognised(filter) ==> FilterDailyByDateRange(daily, filter) == daily
  {
    ApplyShape(daily, WindowOf(daily, filter));
    if filter == "all" || !Recognised(filter) {
      Unrecognised(daily, filter);
    }
  }

  /** Any window keeps an order-preserving part of the series. */
  lemma ApplyShape(daily: seq<DailyMetrics>, w: Window)
    ensures Subsequence(Apply(daily, w), daily)
    ensures SortedBy(daily, DateOf) ==> SortedBy(Apply(daily, w), DateOf)
    ensures |daily| == 0 ==> Apply(daily, w) == []
  {
    match w
    case Everything =>
      SubsequenceOfItself(daily);
    case Between(lo, hi) =>
      FilterSubsequence(daily, InWindow(lo, hi));
      if SortedBy(daily, DateOf) {
        FilterSorted(daily, InWindow(lo, hi));
      }
  }

  lemma Unrecognised(daily: seq<DailyMetrics>, filter: string)
    requires filter == "all" || !Recognised(filter)
    ensures WindowOf(daily, filter) == Everything
  {
    if filter != "all" {
      assert filter != "7d" && filter != "28d" && filter != "90d" && filter != "365d";
      assert !StartsWith(filter, "year:") && !StartsWith(filter, "month:") && !StartsWith(filter, "range:");
      assert TaggedWindow(filter) == Everything;
    }
  }

  /** Membership in a window's result. */
  lemma InBetween(daily: seq<DailyMetrics>, lo: string, hi: string)
    ensures forall d :: d in Apply(daily, Between(lo, Some(hi))) <==>
      d in daily && LessEq(lo, d.date) && LessEq(d.date, hi)
  {
    forall d ensures d in Apply(daily, Between(lo, Some(hi))) <==> d in daily && InWindow(lo, Some(hi))(d) {
      FilterMembers(daily, InWindow(lo, Some(hi)), d);
    }
  }

  /** Three fields without `-`, joined by `-`, split back into themselves. */
  lemma SplitThree(a: string, b: string, c: string)
    requires AvoidsChars(a, "-") && AvoidsChars(b, "-") && AvoidsChars(c, "-")
    ensures Split(a + "-" + b + "-" + c, "-") == [a, b, c]
  {
    assert a + "-" + b + "-" + c == a + "-" + (b + "-" + c);
    SplitAfter(a, "-", b + "-" + c);
    SplitAfter(b, "-", c);
    SplitAvoiding(c, "-");
  }

  /** `parseLocal` reads the first three fields of the split. */
  lemma ParseLocalParts(s: string, parts: seq<string>)
    requires Split(s, "-") == parts && |parts| >= 3
    ensures ParseLocal(s) == LocalDate(NumberOf(parts[0]), NumberOf(parts[1]), NumberOf(parts[2]))
  {
  }

  /** A day from year 100 on, as `formatLocal` writes it. */
  lemma FormattedFields(c: Civil)
    requires Valid(c) && c.year >= 100
    ensures FormatLocal(Some(c)) == NatToString(c.year) + "-" + Pad2(Some(c.month)) + "-" + Pad2(Some(c.day))
  {
  }

  /** The fields `formatLocal` writes for a day from year 100 on. */
  lemma FormattedSplit(c: Civil)
    requires Valid(c) && c.year >= 100
    ensures Split(FormatLocal(Some(c)), "-") == [NatToString(c.year), Pad2(Some(c.month)), Pad2(Some(c.day))]
  {
    var y, m, d := NatToString(c.year), Pad2(Some(c.month)), Pad2(Some(c.day));
    PaddedDigits(c.month);
    PaddedDigits(c.day);
    DigitsAvoidChars(y, "-");
    DigitsAvoidChars(m, "-");
    DigitsAvoidChars(d, "-");
    FormattedFields(c);
    SplitThree(y, m, d);
  }

  /** `parseLocal` on a formatted day reads the three fields `formatLocal` wrote. */
  lemma FormattedParts(c: Civil)
    requires Valid(c) && c.year >= 100
    ensures ParseLocal(FormatLocal(Some(c)))
      == LocalDate(NumberOf(NatToString(c.year)), NumberOf(Pad2(Some(c.month))), NumberOf(Pad2(Some(c.day))))
  {
    FormattedSplit(c);
    ParseLocalParts(FormatLocal(Some(c)), [NatToString(c.year), Pad2(Some(c.month)), Pad2(Some(c.day))]);
  }

  /** The fields of a formatted day read back as its numbers. */
  lemma FieldNumbers(c: Civil)
    requires Valid(c) && c.year >= 100
    ensures NumberOf(NatToString(c.year)) == Some(c.year)
    ensures NumberOf(Pad2(Some(c.month))) == Some(c.month) && NumberOf(Pad2(Some(c.day))) == Some(c.day)
  {
    NumberOfNat(c.year);
    PaddedNumber(c.month);
    PaddedNumber(c.day);
  }

  /** The constructor given a day's own numbers gives that day, from year 100 on. */
  lemma LocalDateOf(c: Civil)
    requires Valid(c) && c.year >= 100
    ensures LocalDate(Some(c.year), Some(c.month), Some(c.day)) == Some(c)
  {
    MakeDateOfCivil(c);
  }

  /** `formatLocal` followed by `parseLocal` gives the day back, for years from 100 on. */
  lemma ParseFormatted(c: Civil)
    requires Valid(c) && c.year >= 100
    ensures ParseLocal(FormatLocal(Some(c))) == Some(c)
  {
    FormattedParts(c);
    FieldNumbers(c);
    LocalDateOf(c);
  }

  /**
    `7d`, `28d`, `90d` and `365d` on a series whose last date is a day `c` written as the filter
    writes dates: the kept records are those dated from `n - 1` days before `c` through `c`.
   */
  lemma RecentWindow(daily: seq<DailyMetrics>, filter: string, n: int, c: Civil)
    requires (filter == "7d" && n == 7) || (filter == "28d" && n == 28)
          || (filter == "90d" && n == 90) || (filter == "365d" && n == 365)
    requires |daily| > 0 && Valid(c) && c.year >= 100 && daily[|daily| - 1].date == FormatLocal(Some(c))
    ensures forall d :: d in FilterDailyByDateRange(daily, filter) <==>
      d in daily && LessEq(FormatLocal(Some(AddDays(c, -(n - 1)))), d.date) && LessEq(d.date, FormatLocal(Some(c)))
  {
    RecentBranch(daily, filter, n);
    ParseFormatted(c);
    RecentBounds(daily[|daily| - 1].date, n, c);
    InBetween(daily, FormatLocal(Some(AddDays(c, -(n - 1)))), FormatLocal(Some(c)));
  }

  /**
    A last date whose year is zero-padded below 1000 falls outside its own window: the start
    bound prints the year without the padding, and `"0999-..."` sorts below `"999-..."`.
   */
  lemma PaddedYearKeepsNothing(d: DailyMetrics)
    requires d.date == "0999-03-10"
    ensures FilterDailyByDateRange([d], "7d") == []
  {
    var c, date := Civil(999, 3, 10), d.date;
    PaddedYearDate(c, date);
    ParsePaddedYear(c);
    var start := FormatLocal(Some(AddDays(c, -6)));
    WeekBeforePadded(c, start);
    SingleRecordWeek(d, c, start);
    assert start[0] == '9' && date[0] == '0';
    OutsideSingle(d, start, Some(date));
  }

  /** `7d` on a single record whose date reads as `c`. */
  lemma SingleRecordWeek(d: DailyMetrics, c: Civil, start: string)
    requires Valid(c) && ParseLocal(d.date) == Some(c) && start == FormatLocal(Some(AddDays(c, -6)))
    ensures FilterDailyByDateRange([d], "7d") == Filter([d], InWindow(start, Some(d.date)))
  {
    RecentBranch([d], "7d", 7);
    RecentBounds(d.date, 7, c);
  }

  lemma OutsideSingle(d: DailyMetrics, lo: string, hi: Option<string>)
    requires |lo| > 0 && |d.date| > 0 && lo[0] > d.date[0]
    ensures Filter([d], InWindow(lo, hi)) == []
  {
    assert !LessEq(lo, d.date);
    assert [d][..0] == [];
  }

  /** `parseLocal` reads a year written with a leading zero as the same day. */
  lemma ParsePaddedYear(c: Civil)
    requires Valid(c) && c.year >= 100
    ensures ParseLocal("0" + FormatLocal(Some(c))) == Some(c)
  {
    var y, m, d := "0" + NatToString(c.year), Pad2(Some(c.month)), Pad2(Some(c.day));
    PaddedYearSplit(c);
    ParseLocalParts("0" + FormatLocal(Some(c)), [y, m, d]);
    PaddedYearNumber(c.year);
    PaddedNumber(c.month);
    PaddedNumber(c.day);
    LocalDateOf(c);
  }

  lemma PaddedYearSplit(c: Civil)
    requires Valid(c) && c.year >= 100
    ensures Split("0" + FormatLocal(Some(c)), "-")
      == ["0" + NatToString(c.year), Pad2(Some(c.month)), Pad2(Some(c.day))]
  {
    var y, m, d := "0" + NatToString(c.year), Pad2(Some(c.month)), Pad2(Some(c.day));
    FormattedFields(c);
    assert "0" + FormatLocal(Some(c)) == y + "-" + m + "-" + d;
    LeadingZeroValue(NatToString(c.year));
    PaddedDigits(c.month);
    PaddedDigits(c.day);
    DigitsAvoidChars(y, "-");
    DigitsAvoidChars(m, "-");
    DigitsAvoidChars(d, "-");
    SplitThree(y, m, d);
  }

  /** `Number` ignores a leading zero. */
  lemma PaddedYearNumber(y: nat)
    ensures NumberOf("0" + NatToString(y)) == Some(y)
  {
    var s := NatToString(y);
    LeadingZeroValue(s);
    DigitsNotSpace("0" + s);
    NatToStringValue(y);
  }

  lemma PaddedYearDate(c: Civil, s: string)
    requires c == Civil(999, 3, 10) && s == "0999-03-10"
    ensures s == "0" + FormatLocal(Some(c))
  {
    assert NatToString(999) == "999" && NatToString(3) == "3";
  }

  lemma WeekBeforePadded(c: Civil, start: string)
    requires c == Civil(999, 3, 10) && start == FormatLocal(Some(AddDays(c, -6)))
    ensures start == "999-03-04"
  {
    assert AddDays(c, -6) == Civil(999, 3, 4);
    assert NatToString(999) == "999";
  }

  lemma RecentBranch(daily: seq<DailyMetrics>, filter: string, n: int)
    requires (filter == "7d" && n == 7) || (filter == "28d" && n == 28)
          || (filter == "90d" && n == 90) || (filter == "365d" && n == 365)
    ensures WindowOf(daily, filter) == LastNDays(daily, n)
  {
  }

  /** The window of `lastNDays(n)` when the last record's date reads as the day `c`: `n - 1` days back. */
  lemma RecentBounds(endStr: string, n: int, c: Civil)
    requires Valid(c)
    ensures WindowEndingAt(endStr, Some(c), n) == Between(FormatLocal(Some(AddDays(c, -(n - 1)))), Some(endStr))
  {
    var k := -(n - 1);
    assert Minus(GetDate(Some(c)), n - 1) == Some(c.day + k);
    SetDateShifts(c, k);
  }

  /** Setting the day of the month to `day + k` moves the date by `k` days. */
  lemma SetDateShifts(c: Civil, k: int)
    requires Valid(c)
    ensures SetDate(Some(c), Some(c.day + k)) == Some(AddDays(c, k))
  {
    SetDateMoves(c, k);
  }

  /** A filter starting with `year:` selects the `year:` branch on the text up to the next colon. */
  lemma YearBranch(daily: seq<DailyMetrics>, filter: string)
    requires StartsWith(filter, "year:")
    ensures WindowOf(daily, filter) == YearWindow(Split(filter[5..], ":")[0])
  {
    Tagged(daily, filter);
    TaggedYear(filter);
  }

  /** A filter starting with a letter other than `a` is one of the tagged ones. */
  lemma Tagged(daily: seq<DailyMetrics>, filter: string)
    requires |filter| > 0 && filter[0] in "ymr"
    ensures WindowOf(daily, filter) == TaggedWindow(filter)
  {
    assert filter != "all" && filter != "7d" && filter != "28d" && filter != "90d" && filter != "365d";
  }

  lemma TaggedYear(filter: string)
    requires StartsWith(filter, "year:")
    ensures TaggedWindow(filter) == YearWindow(Split(filter[5..], ":")[0])
  {
    PayloadAfterTag(filter, "year");
    assert Payload(filter, "year") == Split(filter[5..], ":")[0];
  }

  lemma MonthBranch(daily: seq<DailyMetrics>, filter: string)
    requires StartsWith(filter, "month:")
    ensures WindowOf(daily, filter) == MonthWindow(Split(filter[6..], ":")[0])
  {
    assert filter[..6][0] == 'm';
    Tagged(daily, filter);
    TaggedMonth(filter);
  }

  lemma TaggedMonth(filter: string)
    requires StartsWith(filter, "month:")
    ensures TaggedWindow(filter) == MonthWindow(Split(filter[6..], ":")[0])
  {
    assert !StartsWith(filter, "year:") by {
      assert filter[..6][0] == 'm' && filter[..5][0] == 'm';
    }
    PayloadAfterTag(filter, "month");
    assert Payload(filter, "month") == Split(filter[6..], ":")[0];
  }

  lemma RangeBranch(daily: seq<DailyMetrics>, filter: string)
    requires StartsWith(filter, "range:")
    ensures WindowOf(daily, filter) == RangeWindow(Split(filter[6..], ":")[0])
  {
    assert filter[..6][0] == 'r';
    Tagged(daily, filter);
    TaggedRange(filter);
  }

  lemma TaggedRange(filter: string)
    requires StartsWith(filter, "range:")
    ensures TaggedWindow(filter) == RangeWindow(Split(filter[6..], ":")[0])
  {
    assert !StartsWith(filter, "year:") && !StartsWith(filter, "month:") by {
      assert filter[..6][0] == 'r' && filter[..5][0] == 'r';
    }
    PayloadAfterTag(filter, "range");
    assert Payload(filter, "range") == Split(filter[6..], ":")[0];
  }

  /** `year:Y` keeps the records dated `Y-01-01` through `Y-12-31`. */
  lemma YearFilterWindow(daily: seq<DailyMetrics>, y: nat)
    ensures forall d :: d in FilterDailyByDateRange(daily, "year:" + NatToString(y)) <==>
      d in daily && LessEq(NatToString(y) + "-01-01", d.date) && LessEq(d.date, NatToString(y) + "-12-31")
  {
    var ys := NatToString(y);
    var filter := "year:" + ys;
    assert StartsWith(filter, "year:") && filter[5..] == ys;
    YearBranch(daily, filter);
    DigitsAvoidChars(ys, ":");
    SplitAvoiding(ys, ":");
    NumberOfNat(y);
    InBetween(daily, ys + "-01-01", ys + "-12-31");
  }

  /** The month window of `Y-MM` for a month 1..12. */
  lemma MonthWindowOf(y: nat, m: int)
    requires 1 <= m <= 12
    ensures var ym := NatToString(y) + "-" + Pad2(Some(m));
      MonthWindow(ym) == Between(ym + "-01", Some(ym + "-" + Pad2(Some(DaysInMonth(FullYear(y), m)))))
  {
    MonthFields(y, m);
    MonthOfBounds(y, m);
  }

  /** `Y-MM` splits into fields that read back as the year and the month. */
  lemma MonthFields(y: nat, m: int)
    requires 1 <= m <= 12
    ensures var parts := Split(NatToString(y) + "-" + Pad2(Some(m)), "-");
      NumberAt(parts, 0) == Some(y) && NumberAt(parts, 1) == Some(m)
  {
    var ys, ms := NatToString(y), Pad2(Some(m));
    MonthSplit(y, m);
    assert NumberAt([ys, ms], 0) == NumberOf(ys) && NumberAt([ys, ms], 1) == NumberOf(ms);
    PaddedNumber(m);
    NumberOfNat(y);
  }

  /** `Y-MM` splits at its one `-`. */
  lemma MonthSplit(y: nat, m: int)
    requires 1 <= m <= 12
    ensures Split(NatToString(y) + "-" + Pad2(Some(m)), "-") == [NatToString(y), Pad2(Some(m))]
  {
    var ys, ms := NatToString(y), Pad2(Some(m));
    PaddedDigits(m);
    DigitsAvoidChars(ys, "-");
    DigitsAvoidChars(ms, "-");
    SplitAfter(ys, "-", ms);
    SplitAvoiding(ms, "-");
  }

  lemma MonthOfBounds(y: nat, m: int)
    requires 1 <= m <= 12
    ensures var ym := NatToString(y) + "-" + Pad2(Some(m));
      MonthOf(Some(y), Some(m)) == Between(ym + "-01", Some(ym + "-" + Pad2(Some(DaysInMonth(FullYear(y), m)))))
  {
    LastDayOfMonth(FullYear(y), m);
  }

  /**
    `month:Y-MM` keeps the records dated from day 01 through the last day of that month in the
    Gregorian calendar, so February ends on the 29th exactly in leap years. A year 0..99 is
    printed as given, but its month length is that of 1900..1999.
   */
  lemma MonthFilterWindow(daily: seq<DailyMetrics>, y: nat, m: int)
    requires 1 <= m <= 12
    ensures var ym := NatToString(y) + "-" + Pad2(Some(m));
      forall d :: d in FilterDailyByDateRange(daily, "month:" + ym) <==>
        d in daily && LessEq(ym + "-01", d.date) && LessEq(d.date, ym + "-" + Pad2(Some(DaysInMonth(FullYear(y), m))))
  {
    var ym := NatToString(y) + "-" + Pad2(Some(m));
    MonthFilterSelects(daily, y, m);
    MonthWindowOf(y, m);
    InBetween(daily, ym + "-01", ym + "-" + Pad2(Some(DaysInMonth(FullYear(y), m))));
  }

  /** `month:Y-MM` selects the month window of `Y-MM`. */
  lemma MonthFilterSelects(daily: seq<DailyMetrics>, y: nat, m: int)
    requires 1 <= m <= 12
    ensures var ym := NatToString(y) + "-" + Pad2(Some(m));
      WindowOf(daily, "month:" + ym) == MonthWindow(ym)
  {
    var ym := NatToString(y) + "-" + Pad2(Some(m));
    var filter := "month:" + ym;
    assert StartsWith(filter, "month:") && filter[6..] == ym;
    MonthBranch(daily, filter);
    MonthNoColon(y, m);
  }

  lemma MonthNoColon(y: nat, m: int)
    requires 1 <= m <= 12
    ensures var ym := NatToString(y) + "-" + Pad2(Some(m));
      Split(ym, ":") == [ym]
  {
    var ys, ms := NatToString(y), Pad2(Some(m));
    PaddedDigits(m);
    DigitsAvoidChars(ys, ":");
    DigitsAvoidChars(ms, ":");
    assert AvoidsChars(ys + "-" + ms, ":");
    SplitAvoiding(ys + "-" + ms, ":");
  }

  /** `range:s..e` keeps the records dated `s` through `e`. */
  lemma RangeFilterWindow(daily: seq<DailyMetrics>, s: string, e: string)
    requires AvoidsChars(s, ":.") && AvoidsChars(e, ":.")
    ensures forall d :: d in FilterDailyByDateRange(daily, "range:" + s + ".." + e) <==>
      d in daily && LessEq(s, d.date) && LessEq(d.date, e)
  {
    RangeFilterSelects(daily, s, e);
    InBetween(daily, s, e);
  }

  lemma RangeFilterSelects(daily: seq<DailyMetrics>, s: string, e: string)
    requires AvoidsChars(s, ":.") && AvoidsChars(e, ":.")
    ensures WindowOf(daily, "range:" + s + ".." + e) == Between(s, Some(e))
  {
    var payload := s + ".." + e;
    var filter := "range:" + payload;
    assert "range:" + s + ".." + e == filter;
    assert StartsWith(filter, "range:") && filter[6..] == payload;
    RangeBranch(daily, filter);
    RangePayload(s, e);
  }

  lemma RangePayload(s: string, e: string)
    requires AvoidsChars(s, ":.") && AvoidsChars(e, ":.")
    ensures RangeWindow(Split(s + ".." + e, ":")[0]) == Between(s, Some(e))
  {
    var payload := s + ".." + e;
    assert AvoidsChars(payload, ":");
    SplitAvoiding(payload, ":");
    SplitAfter(s, "..", e);
    SplitAvoiding(e, "..");
  }

  /** `range:s` without `..` compares every date against `undefined` and keeps nothing. */
  lemma RangeWithoutEnd(daily: seq<DailyMetrics>, s: string)
    requires AvoidsChars(s, ":.")
    ensures FilterDailyByDateRange(daily, "range:" + s) == []
  {
    var filter := "range:" + s;
    assert StartsWith(filter, "range:") && filter[6..] == s;
    RangeBranch(daily, filter);
    SplitAvoiding(s, ":");
    SplitAvoiding(s, "..");
    var keep := InWindow(s, None);
    forall d ensures d !in Filter(daily, keep) {
      FilterMembers(daily, keep, d);
    }
    NoMembersEmpty(Filter(daily, keep));
  }
}
