/**
  The aggregation helpers of src/lib/store.ts: `combineDailyAcrossChannels` sums every
  channel's records date by date, `computeTotals` sums a series field by field and
  `computeRpm` turns revenue and views into revenue per thousand views.
 */
module Aggregate {
  import opened Types
  import opened Keyed

  /** The object `computeTotals` returns. */
  datatype Totals = Totals(views: real, watchTimeMinutes: real, subsNet: real, revenueUsd: real)

  const NoTotals := Totals(0.0, 0.0, 0.0, 0.0)

  function Plus(a: Totals, b: Totals): Totals
  {
    Totals(a.views + b.views, a.watchTimeMinutes + b.watchTimeMinutes, a.subsNet + b.subsNet, a.revenueUsd + b.revenueUsd)
  }

  /** The metric fields of one day. */
  function MetricsOf(d: DailyMetrics): Totals
  {
    Totals(d.views, d.watchTimeMinutes, d.subsNet, d.revenueUsd)
  }

  /** `daily.reduce(...)`: the field-by-field sum of a series, all zeros for an empty one. */
  function TotalsOf(daily: seq<DailyMetrics>): (t: Totals)
    ensures |daily| == 0 ==> t == NoTotals
    decreases |daily|
  {
    if |daily| == 0 then NoTotals
    else Plus(TotalsOf(daily[..|daily| - 1]), MetricsOf(daily[|daily| - 1]))
  }

  /** The reducer, with its mutated accumulator. */
  method ComputeTotals(daily: seq<DailyMetrics>) returns (acc: Totals)
    ensures acc == TotalsOf(daily)
  {
    acc := NoTotals;
    var i := 0;
    while i < |daily|
      invariant 0 <= i <= |daily|
      invariant acc == TotalsOf(daily[..i])
    {
      assert daily[..i + 1][..i] == daily[..i];
      var d := daily[i];
      acc := acc.(views := acc.views + d.views);
      acc := acc.(watchTimeMinutes := acc.watchTimeMinutes + d.watchTimeMinutes);
      acc := acc.(subsNet := acc.subsNet + d.subsNet);
      acc := acc.(revenueUsd := acc.revenueUsd + d.revenueUsd);
      i := i + 1;
    }
    assert daily[..|daily|] == daily;
  }

  /** Totals split over a concatenation. */
  lemma {:induction false} TotalsAppend(a: seq<DailyMetrics>, b: seq<DailyMetrics>)
    ensures TotalsOf(a + b) == Plus(TotalsOf(a), TotalsOf(b))
    decreases |b|
  {
    if |b| > 0 {
      var n := |b| - 1;
      assert (a + b)[..|a + b| - 1] == a + b[..n];
      TotalsAppend(a, b[..n]);
    } else {
      assert a + b == a;
    }
  }

  // ----------------------------------------------------------- combining

  /** `cur.<field> += d.<field>` for all four fields. */
  function Accumulate(cur: DailyMetrics, d: DailyMetrics): DailyMetrics
  {
    cur.(views := cur.views + d.views, watchTimeMinutes := cur.watchTimeMinutes + d.watchTimeMinutes,
         subsNet := cur.subsNet + d.subsNet, revenueUsd := cur.revenueUsd + d.revenueUsd)
  }

  /** `dateMap.get(d.date) ?? <zero record>`. */
  function Current(m: map<string, DailyMetrics>, date: string): DailyMetrics
  {
    if date in m then m[date] else ZeroMetrics(date)
  }

  /** One iteration of the inner loop. */
  function AddInto(m: map<string, DailyMetrics>, d: DailyMetrics): map<string, DailyMetrics>
  {
    m[d.date := Accumulate(Current(m, d.date), d)]
  }

  /** The date map after visiting `days` in order. */
  function CombineMap(m: map<string, DailyMetrics>, days: seq<DailyMetrics>): map<string, DailyMetrics>
    decreases |days|
  {
    if |days| == 0 then m
    else AddInto(CombineMap(m, days[..|days| - 1]), days[|days| - 1])
  }

  /** Every record of every channel, channel by channel. */
  function AllDays(channels: seq<ChannelData>): seq<DailyMetrics>
    decreases |channels|
  {
    if |channels| == 0 then []
    else AllDays(channels[..|channels| - 1]) + channels[|channels| - 1].daily
  }

  /** What `combineDailyAcrossChannels(channels)` returns. */
  ghost function Combined(channels: seq<ChannelData>): seq<DailyMetrics>
  {
    SortByKey(CombineMap(map[], AllDays(channels)))
  }

  lemma CombineStep(m: map<string, DailyMetrics>, prefix: seq<DailyMetrics>, days: seq<DailyMetrics>, j: int)
    requires 0 <= j < |days|
    ensures CombineMap(m, prefix + days[..j + 1]) == AddInto(CombineMap(m, prefix + days[..j]), days[j])
  {
    assert (prefix + days[..j + 1])[..|prefix| + j] == prefix + days[..j];
  }

  /** The nested loops: over the channels, then over each channel's days. */
  method CombineDailyAcrossChannels(channels: seq<ChannelData>) returns (combined: seq<DailyMetrics>)
    ensures combined == Combined(channels)
  {
    var dateMap: map<string, DailyMetrics> := map[];
    var i := 0;
    while i < |channels|
      invariant 0 <= i <= |channels|
      invariant dateMap == CombineMap(map[], AllDays(channels[..i]))
    {
      assert channels[..i + 1][..i] == channels[..i];
      var daily := channels[i].daily;
      assert AllDays(channels[..i]) + daily[..0] == AllDays(channels[..i]);
      var j := 0;
      while j < |daily|
        invariant 0 <= j <= |daily|
        invariant dateMap == CombineMap(map[], AllDays(channels[..i]) + daily[..j])
      {
        CombineStep(map[], AllDays(channels[..i]), daily, j);
        var d := daily[j];
        var cur := if d.date in dateMap then dateMap[d.date] else ZeroMetrics(d.date);
        cur := Accumulate(cur, d);
        dateMap := dateMap[d.date := cur];
        j := j + 1;
      }
      assert daily[..|daily|] == daily;
      i := i + 1;
    }
    assert channels[..|channels|] == channels;
    combined := SortedValues(dateMap);
  }

  // ------------------------------------------------------------ reference

  /** The records of `days` that carry `date`. */
  function DaysOn(days: seq<DailyMetrics>, date: string): seq<DailyMetrics>
    decreases |days|
  {
    if |days| == 0 then []
    else DaysOn(days[..|days| - 1], date) + if days[|days| - 1].date == date then [days[|days| - 1]] else []
  }

  /** A day record holding `t`. */
  function DayOf(date: string, t: Totals): DailyMetrics
  {
    DailyMetrics(date, t.views, t.watchTimeMinutes, t.subsNet, t.revenueUsd)
  }

  /**
    The combined map holds a date exactly when some record carries it, and under it the sums,
    field by field, of the records carrying that date.
   */
  lemma {:induction false} CombineMapAt(days: seq<DailyMetrics>, date: string)
    ensures date in CombineMap(map[], days) <==> date in KeysOf(days, DateOf)
    ensures date in CombineMap(map[], days) ==> CombineMap(map[], days)[date] == DayOf(date, TotalsOf(DaysOn(days, date)))
    decreases |days|
  {
    if |days| > 0 {
      var n := |days| - 1;
      CombineMapAt(days[..n], date);
      KeysOfSnoc(days, DateOf);
      if days[n].date == date {
        LastOnDate(days, date);
      } else {
        LastOnOtherDate(days, date);
      }
    }
  }

  /** The step of `CombineMapAt` for a last record of that date. */
  lemma LastOnDate(days: seq<DailyMetrics>, date: string)
    requires |days| > 0 && days[|days| - 1].date == date
    requires var m := CombineMap(map[], days[..|days| - 1]);
      (date in m <==> date in KeysOf(days[..|days| - 1], DateOf))
      && (date in m ==> m[date] == DayOf(date, TotalsOf(DaysOn(days[..|days| - 1], date))))
    ensures date in CombineMap(map[], days)
    ensures CombineMap(map[], days)[date] == DayOf(date, TotalsOf(DaysOn(days, date)))
  {
    var n := |days| - 1;
    var before := DaysOn(days[..n], date);
    assert DaysOn(days, date) == before + [days[n]];
    if date !in KeysOf(days[..n], DateOf) {
      NoneOn(days[..n], date);
    }
    AddIntoSame(CombineMap(map[], days[..n]), days[n], before);
  }

  /** The step of `CombineMapAt` for a last record of another date. */
  lemma LastOnOtherDate(days: seq<DailyMetrics>, date: string)
    requires |days| > 0 && days[|days| - 1].date != date
    ensures date in CombineMap(map[], days) <==> date in CombineMap(map[], days[..|days| - 1])
    ensures date in CombineMap(map[], days) ==> CombineMap(map[], days)[date] == CombineMap(map[], days[..|days| - 1])[date]
    ensures DaysOn(days, date) == DaysOn(days[..|days| - 1], date)
  {
    var before := DaysOn(days[..|days| - 1], date);
    assert DaysOn(days, date) == before + [];
    assert before + [] == before;
  }

  /** Adding a record to the sums of the earlier records of its date sums them all. */
  lemma AddIntoSame(m: map<string, DailyMetrics>, d: DailyMetrics, before: seq<DailyMetrics>)
    requires d.date in m ==> m[d.date] == DayOf(d.date, TotalsOf(before))
    requires d.date !in m ==> before == []
    ensures AddInto(m, d)[d.date] == DayOf(d.date, TotalsOf(before + [d]))
  {
    TotalsAppend(before, [d]);
    TotalsSingle(d);
  }

  lemma {:induction false} NoneOn(days: seq<DailyMetrics>, date: string)
    requires date !in KeysOf(days, DateOf)
    ensures DaysOn(days, date) == []
    decreases |days|
  {
    if |days| > 0 {
      var n := |days| - 1;
      KeysOfSnoc(days, DateOf);
      NoneOn(days[..n], date);
    }
  }

  lemma {:induction false} CombineMapKeyed(days: seq<DailyMetrics>)
    ensures KeyedBy(CombineMap(map[], days), DateOf)
    decreases |days|
  {
    if |days| > 0 {
      CombineMapKeyed(days[..|days| - 1]);
    }
  }

  /**
    The combined series is strictly ascending by date, holds exactly the dates found in some
    channel, and each record is the field-by-field sum of all records of its date.
   */
  lemma CombinedMeaning(channels: seq<ChannelData>)
    ensures SortedBy(Combined(channels), DateOf)
    ensures forall date :: date in KeysOf(Combined(channels), DateOf) <==> date in KeysOf(AllDays(channels), DateOf)
    ensures forall d :: d in Combined(channels) ==> d == DayOf(d.date, TotalsOf(DaysOn(AllDays(channels), d.date)))
  {
    var days := AllDays(channels);
    var m := CombineMap(map[], days);
    CombineMapKeyed(days);
    SortByKeyContents(m, DateOf);
    forall date ensures date in m <==> date in KeysOf(days, DateOf) {
      CombineMapAt(days, date);
    }
    forall d | d in Combined(channels) ensures d == DayOf(d.date, TotalsOf(DaysOn(days, d.date))) {
      CombineMapAt(days, d.date);
    }
  }

  // --------------------------------------------------------- conservation

  lemma PlusSwap(a: Totals, b: Totals, c: Totals)
    ensures Plus(Plus(a, b), c) == Plus(Plus(a, c), b)
  {
  }

  /** Totals of a three-part sequence. */
  lemma TotalsAround(pre: seq<DailyMetrics>, x: DailyMetrics, post: seq<DailyMetrics>)
    ensures TotalsOf(pre + [x] + post) == Plus(Plus(TotalsOf(pre), TotalsOf(post)), MetricsOf(x))
  {
    TotalsAppend(pre + [x], post);
    TotalsAppend(pre, [x]);
    TotalsSingle(x);
    PlusSwap(TotalsOf(pre), MetricsOf(x), TotalsOf(post));
  }

  lemma TotalsReplaced(s: seq<DailyMetrics>, p: int, x: DailyMetrics)
    requires 0 <= p < |s|
    ensures Plus(TotalsOf(s[p := x]), MetricsOf(s[p])) == Plus(TotalsOf(s), MetricsOf(x))
  {
    var pre, post := s[..p], s[p + 1..];
    assert s == pre + [s[p]] + post;
    assert s[p := x] == pre + [x] + post;
    TotalsAround(pre, s[p], post);
    TotalsAround(pre, x, post);
  }

  lemma TotalsInserted(s: seq<DailyMetrics>, p: int, x: DailyMetrics)
    requires 0 <= p <= |s|
    ensures TotalsOf(s[..p] + [x] + s[p..]) == Plus(TotalsOf(s), MetricsOf(x))
  {
    assert s == s[..p] + s[p..];
    TotalsAppend(s[..p], s[p..]);
    TotalsAround(s[..p], x, s[p..]);
  }

  lemma TotalsSingle(x: DailyMetrics)
    ensures TotalsOf([x]) == MetricsOf(x)
  {
    assert [x][..0] == [];
  }

  /** Folding one record into the map adds exactly its metrics to the sorted values' totals. */
  lemma AddIntoConserves(m: map<string, DailyMetrics>, d: DailyMetrics)
    ensures TotalsOf(SortByKey(AddInto(m, d))) == Plus(TotalsOf(SortByKey(m)), MetricsOf(d))
  {
    var acc := Accumulate(Current(m, d.date), d);
    if d.date in m {
      var p := SortByKeyUpdate(m, d.date, acc);
      TotalsReplaced(SortByKey(m), p, acc);
      Cancel(TotalsOf(SortByKey(m)[p := acc]), TotalsOf(SortByKey(m)), m[d.date], d);
    } else {
      var p := SortByKeyInsert(m, d.date, acc);
      TotalsInserted(SortByKey(m), p, acc);
    }
  }

  /** Removing the old record and adding the accumulated one adds the new record's metrics. */
  lemma Cancel(after: Totals, before: Totals, cur: DailyMetrics, d: DailyMetrics)
    requires Plus(after, MetricsOf(cur)) == Plus(before, MetricsOf(Accumulate(cur, d)))
    ensures after == Plus(before, MetricsOf(d))
  {
  }

  /** The sorted values of the combined map add up to the records it was built from. */
  lemma {:induction false} CombineMapConserves(days: seq<DailyMetrics>)
    ensures TotalsOf(SortByKey(CombineMap(map[], days))) == TotalsOf(days)
    decreases |days|
  {
    if |days| > 0 {
      var n := |days| - 1;
      CombineMapConserves(days[..n]);
      AddIntoConserves(CombineMap(map[], days[..n]), days[n]);
    }
  }

  /** Each channel's totals, added up. */
  function SumOfTotals(channels: seq<ChannelData>): Totals
    decreases |channels|
  {
    if |channels| == 0 then NoTotals
    else Plus(SumOfTotals(channels[..|channels| - 1]), TotalsOf(channels[|channels| - 1].daily))
  }

  /** The totals of the combined series are the sum of the per-channel totals. */
  lemma {:induction false} CombinedTotals(channels: seq<ChannelData>)
    ensures TotalsOf(Combined(channels)) == SumOfTotals(channels)
  {
    CombineMapConserves(AllDays(channels));
    AllDaysTotals(channels);
  }

  lemma {:induction false} AllDaysTotals(channels: seq<ChannelData>)
    ensures TotalsOf(AllDays(channels)) == SumOfTotals(channels)
    decreases |channels|
  {
    if |channels| > 0 {
      var n := |channels| - 1;
      AllDaysTotals(channels[..n]);
      TotalsAppend(AllDays(channels[..n]), channels[n].daily);
    }
  }

  // ------------------------------------------------------------------ RPM

  /** Revenue per thousand views, 0 when there are no views. */
  function ComputeRpm(totalRevenueUsd: real, totalViews: real): real
  {
    if totalViews == 0.0 then 0.0 else totalRevenueUsd / (totalViews / 1000.0)
  }

  /** RPM times thousands of views gives the revenue back, whenever there are views. */
  lemma RpmRecoversRevenue(revenue: real, views: real)
    requires views != 0.0
    ensures ComputeRpm(revenue, views) * (views / 1000.0) == revenue
  {
  }

  /** With no views the RPM is 0, whatever the revenue. */
  lemma RpmNoViews(revenue: real)
    ensures ComputeRpm(revenue, 0.0) == 0.0
  {
  }

  lemma RpmExamples()
    ensures ComputeRpm(100.0, 1000.0) == 100.0
    ensures ComputeRpm(5.0, 0.0) == 0.0
  {
  }
}
