/**
  The extraction half of `parseChannelFolderWithWarnings` (src/lib/csv.ts): how one row of each
  kind of file yields a date and a metric value, and how the four row loops build the
  `dateToMetrics` map, one field per kind, with a later row for the same date overwriting an
  earlier one.
 */
module Extract {
  import opened Wrappers
  import opened Text
  import opened Types
  import opened Keyed
  import opened Normalize

  // ---------------------------------------------------------- columns read

  const ViewsKeys: seq<string> := ["views", "view", "views (estimated)", "estimated views", "views_estimated"]
  const MinuteKeys: seq<string> := ["watch_time_minutes", "watch time minutes", "watch_time", "watch time (minutes)"]
  const NetKeys: seq<string> := ["subs_net", "subs", "subscribers"]
  const GainedKeys: seq<string> := ["subscribers gained", "subs gained"]
  const LostKeys: seq<string> := ["subscribers lost", "subs lost"]
  const RevenueKeys: seq<string> := ["revenue_usd", "revenue", "estimated revenue (usd)", "your estimated revenue (usd)"]

  /** Some key of `keys` is present in `r`, whatever its value. */
  predicate HasAny(r: Row, keys: seq<string>)
  {
    exists j :: 0 <= j < |keys| && Has(r, keys[j])
  }

  // ------------------------------------------------------------ row date

  /**
    The day a row belongs to. The views loop reads `date`, then `day`; the other three loops
    read `date` only.
   */
  function RowDate(isoValid: string -> bool, kind: Kind, r: Row): Option<string>
  {
    match kind
    case Views => NormalizeDate(isoValid, FirstFilled(r, ["date", "day", "date"]))
    case _ => NormalizeDate(isoValid, FirstFilled(r, ["date"]))
  }

  /** A row dated only by a `day` column counts in a views file and is skipped elsewhere. */
  lemma DayColumnOnlyForViews(isoValid: string -> bool, day: string, kind: Kind)
    requires kind != Views
    ensures RowDate(isoValid, Views, [Cell("day", day)]) == NormalizeDate(isoValid, day)
    ensures RowDate(isoValid, kind, [Cell("day", day)]) == None
  {
    var r := [Cell("day", day)];
    assert Get(r, "date") == None;
    assert Get(r, "day") == Some(day);
    assert FirstFilled(r, ["date"]) == "";
  }

  // ----------------------------------------------------------- row values

  /** The views loop: the first filled views column. */
  function ViewsValue(r: Row): real
  {
    ParseNumber(FirstFilled(r, ViewsKeys))
  }

  /**
    The watch-time loop: the minute columns when any of them is present as a key, else the
    first key holding both `watch` and `hour`, read as hours; else 0.
   */
  function WatchMinutes(r: Row): real
  {
    if HasAny(r, MinuteKeys) then ParseNumber(FirstFilled(r, MinuteKeys))
    else
      match FirstKeyContaining(r, ["watch", "hour"])
      case Some(hourKey) => ParseNumber(FirstFilled(r, [hourKey])) * 60.0
      case None => 0.0
  }

  /** The subscribers loop: the net column, else gained minus lost when either is non-zero. */
  function SubsNetValue(r: Row): real
  {
    var subs := ParseNumber(FirstFilled(r, NetKeys));
    if subs != 0.0 then subs
    else
      var gained := ParseNumber(FirstFilled(r, GainedKeys));
      var lost := ParseNumber(FirstFilled(r, LostKeys));
      if gained != 0.0 || lost != 0.0 then gained - lost else subs
  }

  /** The revenue loop: the first filled exact column, else the first key holding `revenue`. */
  function RevenueValue(r: Row): real
  {
    var exact := FirstFilled(r, RevenueKeys);
    if exact != "" then ParseNumber(exact)
    else
      match FirstKeyContaining(r, ["revenue"])
      case Some(revKey) => ParseNumber(FirstFilled(r, [revKey]))
      case None => 0.0
  }

  /** The value a row of `kind` contributes. */
  function RowValue(kind: Kind, r: Row): real
  {
    match kind
    case Views => ViewsValue(r)
    case WatchTime => WatchMinutes(r)
    case Subscribers => SubsNetValue(r)
    case Revenue => RevenueValue(r)
  }

  /** The net-subscriber rule in one line: a zero net reading falls back to gained minus lost. */
  lemma SubsNetMeaning(r: Row)
    ensures var net := ParseNumber(FirstFilled(r, NetKeys));
      SubsNetValue(r) ==
        if net != 0.0 then net
        else ParseNumber(FirstFilled(r, GainedKeys)) - ParseNumber(FirstFilled(r, LostKeys))
  {
  }

  /**
    Hours are converted only when no minute column is present: a present but empty minute
    column yields 0, whatever hours column stands beside it.
   */
  lemma EmptyMinuteColumnBlocksHours(r: Row)
    requires HasAny(r, MinuteKeys) && FirstFilled(r, MinuteKeys) == ""
    ensures WatchMinutes(r) == 0.0
  {
    ParseNumberEmpty();
  }

  /**
    With no minute column, the first column in header order whose key holds both `watch` and
    `hour` is read as hours and converted to minutes.
   */
  lemma HoursConverted(r: Row, i: nat)
    requires !HasAny(r, MinuteKeys)
    requires i < |r| && Contains(r[i].key, "watch") && Contains(r[i].key, "hour")
    requires forall h :: 0 <= h < i ==> !Contains(r[h].key, "watch") || !Contains(r[h].key, "hour")
    ensures WatchMinutes(r) == ParseNumber(r[i].value) * 60.0
  {
    var subs := ["watch", "hour"];
    forall h | 0 <= h < i
      ensures MissesSome(r[h].key, subs)
    {
      if !Contains(r[h].key, "watch") {
        assert !Contains(r[h].key, subs[0]);
      } else {
        assert !Contains(r[h].key, subs[1]);
      }
    }
    FirstKeyAt(r, subs, i);
  }

  /** Without a minute column or a key holding both `watch` and `hour`, watch time is 0. */
  lemma NoWatchColumns(r: Row)
    requires !HasAny(r, MinuteKeys)
    requires forall h :: 0 <= h < |r| ==> !Contains(r[h].key, "watch") || !Contains(r[h].key, "hour")
    ensures WatchMinutes(r) == 0.0
  {
    var subs := ["watch", "hour"];
    forall key | key in RowKeys(r)
      ensures !Contains(key, subs[0]) || !Contains(key, subs[1])
    {
      var h :| 0 <= h < |r| && RowKeys(r)[h] == key;
    }
    assert FirstKeyContaining(r, subs).None?;
  }

  /** `key` lacks at least one of the fragments `subs`. */
  predicate MissesSome(key: string, subs: seq<string>)
  {
    exists j :: 0 <= j < |subs| && !Contains(key, subs[j])
  }

  /**
    The key `find` picks: the first in header order holding every fragment; its value is read
    from the first cell under that key.
   */
  lemma FirstKeyAt(r: Row, subs: seq<string>, i: nat)
    requires i < |r| && forall j :: 0 <= j < |subs| ==> Contains(r[i].key, subs[j])
    requires forall h :: 0 <= h < i ==> MissesSome(r[h].key, subs)
    ensures FirstKeyContaining(r, subs) == Some(r[i].key)
    ensures FirstFilled(r, [r[i].key]) == r[i].value
  {
    FirstKeyFound(r, subs, i);
    forall h | 0 <= h < i
      ensures r[h].key != r[i].key
    {
      var j :| 0 <= j < |subs| && !Contains(r[h].key, subs[j]);
    }
    GetFirst(r, i);
  }

  lemma {:induction false} FirstKeyFound(r: Row, subs: seq<string>, i: nat)
    requires i < |r| && forall j :: 0 <= j < |subs| ==> Contains(r[i].key, subs[j])
    requires forall h :: 0 <= h < i ==> MissesSome(r[h].key, subs)
    ensures FirstKeyContaining(r, subs) == Some(r[i].key)
    decreases i
  {
    if i > 0 {
      var j :| 0 <= j < |subs| && !Contains(r[0].key, subs[j]);
      assert forall h :: 0 <= h < i - 1 ==> r[1..][h] == r[h + 1];
      FirstKeyFound(r[1..], subs, i - 1);
    }
  }

  lemma RevenueKeysMentionRevenue()
    ensures forall j :: 0 <= j < |RevenueKeys| ==> Contains(RevenueKeys[j], "revenue")
  {
    assert OccursAt(RevenueKeys[0], "revenue", 0);
    assert OccursAt(RevenueKeys[1], "revenue", 0);
    assert OccursAt(RevenueKeys[2], "revenue", 10);
    assert OccursAt(RevenueKeys[3], "revenue", 15);
  }

  /** When one column of a row mentions revenue, that column is the revenue, whatever its name. */
  lemma RevenueFromOnlyRevenueColumn(r: Row, key: string, v: string)
    requires Get(r, key) == Some(v) && Contains(key, "revenue")
    requires forall k :: k in RowKeys(r) && Contains(k, "revenue") ==> k == key
    ensures RevenueValue(r) == ParseNumber(v)
  {
    if FirstFilled(r, RevenueKeys) != "" {
      OnlyRevenueColumnExact(r, key, v);
    } else {
      OnlyRevenueColumnFallback(r, key, v);
    }
  }

  /** Column `i` is the first in header order whose key mentions `word`. */
  predicate FirstKeyWith(r: Row, i: nat, word: string)
  {
    i < |r| && Contains(r[i].key, word) && forall h :: 0 <= h < i ==> !Contains(r[h].key, word)
  }

  /**
    With no exact revenue column filled, the first column in header order whose key mentions
    `revenue` is read.
   */
  lemma RevenueFallbackColumn(r: Row, i: nat)
    requires FirstFilled(r, RevenueKeys) == "" && FirstKeyWith(r, i, "revenue")
    ensures RevenueValue(r) == ParseNumber(r[i].value)
  {
    var key, v := r[i].key, r[i].value;
    FirstKeyWithFound(r, i, "revenue");
    RevenueFromFallback(r, key, v);
  }

  lemma FirstKeyWithFound(r: Row, i: nat, word: string)
    requires FirstKeyWith(r, i, word)
    ensures FirstKeyContaining(r, [word]) == Some(r[i].key)
    ensures FirstFilled(r, [r[i].key]) == r[i].value
  {
    var subs := [word];
    forall h | 0 <= h < i
      ensures MissesSome(r[h].key, subs)
    {
      assert !Contains(r[h].key, subs[0]);
    }
    assert Contains(r[i].key, subs[0]);
    FirstKeyAt(r, subs, i);
  }

  lemma RevenueFromFallback(r: Row, key: string, v: string)
    requires FirstFilled(r, RevenueKeys) == "" && FirstKeyContaining(r, ["revenue"]) == Some(key)
    requires FirstFilled(r, [key]) == v
    ensures RevenueValue(r) == ParseNumber(v)
  {
  }

  lemma OnlyRevenueColumnExact(r: Row, key: string, v: string)
    requires Get(r, key) == Some(v)
    requires forall k :: k in RowKeys(r) && Contains(k, "revenue") ==> k == key
    requires FirstFilled(r, RevenueKeys) != ""
    ensures FirstFilled(r, RevenueKeys) == v
  {
    RevenueKeysMentionRevenue();
    var exact := FirstFilled(r, RevenueKeys);
    var i :| 0 <= i < |RevenueKeys| && Get(r, RevenueKeys[i]) == Some(exact);
    assert RevenueKeys[i] == key;
  }

  lemma OnlyRevenueColumnFallback(r: Row, key: string, v: string)
    requires Get(r, key) == Some(v) && Contains(key, "revenue")
    requires forall k :: k in RowKeys(r) && Contains(k, "revenue") ==> k == key
    requires FirstFilled(r, RevenueKeys) == ""
    ensures RevenueValue(r) == ParseNumber(v)
  {
    var found := FirstKeyContaining(r, ["revenue"]);
    assert Contains(key, ["revenue"][0]);
    assert found.Some? && found.value == key;
    if v == "" {
      ParseNumberEmpty();
    }
  }

  // ------------------------------------------------------- the row loops

  /** The field a kind's loop writes. */
  function Field(m: DailyMetrics, kind: Kind): real
  {
    match kind
    case Views => m.views
    case WatchTime => m.watchTimeMinutes
    case Subscribers => m.subsNet
    case Revenue => m.revenueUsd
  }

  /** `m.<field> = v` for the kind's field. */
  function SetField(m: DailyMetrics, kind: Kind, v: real): (m': DailyMetrics)
    ensures Field(m', kind) == v && m'.date == m.date
    ensures forall k :: k != kind ==> Field(m', k) == Field(m, k)
  {
    match kind
    case Views => m.(views := v)
    case WatchTime => m.(watchTimeMinutes := v)
    case Subscribers => m.(subsNet := v)
    case Revenue => m.(revenueUsd := v)
  }

  /** The record `upsert` hands to the updater: the stored one, or a fresh zero record. */
  function Existing(m: map<string, DailyMetrics>, date: string): DailyMetrics
  {
    if date in m then m[date] else ZeroMetrics(date)
  }

  /** What one row contributes: its day and its value, or nothing when it has no valid date. */
  datatype Dated = Dated(date: string, value: real)

  /** How a loop reads the date of a row of `kind`. */
  function DateReader(isoValid: string -> bool, kind: Kind): Row -> Option<string>
  {
    r => RowDate(isoValid, kind, r)
  }

  /** How a loop reads the value of a row of `kind`. */
  function ValueReader(kind: Kind): Row -> real
  {
    r => RowValue(kind, r)
  }

  /** The entries of a file's rows, in file order: a row's value is read only when it is dated. */
  function Entries(date: Row -> Option<string>, value: Row -> real, rows: seq<Row>): (es: seq<Option<Dated>>)
    ensures |es| == |rows|
    decreases |rows|
  {
    if |rows| == 0 then []
    else
      var r := rows[|rows| - 1];
      var e := if date(r).Some? then Some(Dated(date(r).value, value(r))) else None;
      Entries(date, value, rows[..|rows| - 1]) + [e]
  }

  lemma {:induction false} EntriesAt(date: Row -> Option<string>, value: Row -> real, rows: seq<Row>, i: nat)
    requires i < |rows|
    ensures var e := Entries(date, value, rows)[i];
      && (e.None? <==> date(rows[i]).None?)
      && (e.Some? ==> e.value == Dated(date(rows[i]).value, value(rows[i])))
    decreases |rows|
  {
    if i < |rows| - 1 {
      EntriesAt(date, value, rows[..|rows| - 1], i);
    }
  }

  /** One iteration of a row loop: an undated row is skipped, a dated one upserts its field. */
  function Upsert(kind: Kind, m: map<string, DailyMetrics>, e: Option<Dated>): map<string, DailyMetrics>
  {
    match e
    case None => m
    case Some(d) => m[d.date := SetField(Existing(m, d.date), kind, d.value)]
  }

  /** A whole row loop over the entries of a file, in file order. */
  function UpsertAll(kind: Kind, m: map<string, DailyMetrics>, es: seq<Option<Dated>>): map<string, DailyMetrics>
    decreases |es|
  {
    if |es| == 0 then m
    else Upsert(kind, UpsertAll(kind, m, es[..|es| - 1]), es[|es| - 1])
  }

  /** The value of the last entry dated `date`, if any. */
  function LastFor(es: seq<Option<Dated>>, date: string): Option<real>
    decreases |es|
  {
    if |es| == 0 then None
    else
      var e := es[|es| - 1];
      if e.Some? && e.value.date == date then Some(e.value.value)
      else LastFor(es[..|es| - 1], date)
  }

  /** `LastFor` is the value of an entry dated `date` after which no entry carries that date. */
  lemma {:induction false} LastForMeaning(es: seq<Option<Dated>>, date: string)
    ensures LastFor(es, date).None? <==> forall i :: 0 <= i < |es| ==> es[i] == None || es[i].value.date != date
    ensures LastFor(es, date).Some? ==>
      exists i :: 0 <= i < |es| && es[i] == Some(Dated(date, LastFor(es, date).value))
        && forall j :: i < j < |es| ==> es[j] == None || es[j].value.date != date
    decreases |es|
  {
    if |es| > 0 {
      var init := es[..|es| - 1];
      LastForMeaning(init, date);
      var e := es[|es| - 1];
      if !(e.Some? && e.value.date == date) {
        assert forall i :: 0 <= i < |init| ==> init[i] == es[i];
        if LastFor(init, date).Some? {
          var i :| 0 <= i < |init| && init[i] == Some(Dated(date, LastFor(init, date).value))
            && forall j :: i < j < |init| ==> init[j] == None || init[j].value.date != date;
          assert es[i] == init[i];
        }
      }
    }
  }

  /**
    What a row loop leaves under `date`: nothing new when no row carries the date; otherwise the
    record found there (or a zero one) with the kind's field set to the last such row's value
    and every other field untouched.
   */
  lemma {:induction false} UpsertAllAt(kind: Kind, m: map<string, DailyMetrics>, es: seq<Option<Dated>>, date: string)
    ensures var r := UpsertAll(kind, m, es); var last := LastFor(es, date);
      && (date in r <==> date in m || last.Some?)
      && (date in r ==> r[date] == SetField(Existing(m, date), kind, last.GetOr(Field(Existing(m, date), kind))))
    decreases |es|
  {
    if |es| > 0 {
      UpsertAllAt(kind, m, es[..|es| - 1], date);
    }
  }

  /** The loops never file a record under another date than its own. */
  lemma {:induction false} UpsertAllKeyed(kind: Kind, m: map<string, DailyMetrics>, es: seq<Option<Dated>>)
    requires KeyedBy(m, DateOf)
    ensures KeyedBy(UpsertAll(kind, m, es), DateOf)
    decreases |es|
  {
    if |es| > 0 {
      UpsertAllKeyed(kind, m, es[..|es| - 1]);
    }
  }

  /** The value of the last row of `rows` dated `date`, if any. */
  function LastValue(isoValid: string -> bool, kind: Kind, rows: seq<Row>, date: string): Option<real>
  {
    LastFor(Entries(DateReader(isoValid, kind), ValueReader(kind), rows), date)
  }

  /** `LastValue`, row by row: the value of a row dated `date` after which no row carries that date. */
  lemma LastValueMeaning(isoValid: string -> bool, kind: Kind, rows: seq<Row>, date: string)
    ensures LastValue(isoValid, kind, rows, date).None? <==>
      forall i :: 0 <= i < |rows| ==> RowDate(isoValid, kind, rows[i]) != Some(date)
    ensures LastValue(isoValid, kind, rows, date).Some? ==>
      exists i :: 0 <= i < |rows| && RowDate(isoValid, kind, rows[i]) == Some(date)
        && LastValue(isoValid, kind, rows, date).value == RowValue(kind, rows[i])
        && forall j :: i < j < |rows| ==> RowDate(isoValid, kind, rows[j]) != Some(date)
  {
    var dates, values := DateReader(isoValid, kind), ValueReader(kind);
    LastEntryMeaning(dates, values, rows, date);
    assert forall i :: 0 <= i < |rows| ==> dates(rows[i]) == RowDate(isoValid, kind, rows[i]);
    assert forall i :: 0 <= i < |rows| ==> values(rows[i]) == RowValue(kind, rows[i]);
  }

  /** `LastValueMeaning` for any way of reading a row's date and value. */
  lemma LastEntryMeaning(dates: Row -> Option<string>, values: Row -> real, rows: seq<Row>, date: string)
    ensures LastFor(Entries(dates, values, rows), date).None? <==>
      forall i :: 0 <= i < |rows| ==> dates(rows[i]) != Some(date)
    ensures LastFor(Entries(dates, values, rows), date).Some? ==>
      exists i :: 0 <= i < |rows| && dates(rows[i]) == Some(date)
        && LastFor(Entries(dates, values, rows), date).value == values(rows[i])
        && forall j :: i < j < |rows| ==> dates(rows[j]) != Some(date)
  {
    var es := Entries(dates, values, rows);
    LastForMeaning(es, date);
    forall i | 0 <= i < |rows|
      ensures es[i] == if dates(rows[i]).Some? then Some(Dated(dates(rows[i]).value, values(rows[i]))) else None
    {
      EntriesAt(dates, values, rows, i);
    }
  }

  /** The four loops in the source's order: views, watch time, subscribers, revenue. */
  function DailyMap(isoValid: string -> bool, views: seq<Row>, watch: seq<Row>, subs: seq<Row>, revenue: seq<Row>)
    : map<string, DailyMetrics>
  {
    var m1 := UpsertAll(Views, map[], Entries(DateReader(isoValid, Views), ValueReader(Views), views));
    var m2 := UpsertAll(WatchTime, m1, Entries(DateReader(isoValid, WatchTime), ValueReader(WatchTime), watch));
    var m3 := UpsertAll(Subscribers, m2, Entries(DateReader(isoValid, Subscribers), ValueReader(Subscribers), subs));
    UpsertAll(Revenue, m3, Entries(DateReader(isoValid, Revenue), ValueReader(Revenue), revenue))
  }

  /**
    Every day of the folder: a date is present exactly when some file has a row carrying it, and
    its record holds, per metric, the value of that file's last row for the date, or 0.
   */
  lemma DailyMapAt(isoValid: string -> bool, views: seq<Row>, watch: seq<Row>, subs: seq<Row>, revenue: seq<Row>, date: string)
    ensures var m := DailyMap(isoValid, views, watch, subs, revenue);
      var v := LastValue(isoValid, Views, views, date);
      var w := LastValue(isoValid, WatchTime, watch, date);
      var s := LastValue(isoValid, Subscribers, subs, date);
      var rv := LastValue(isoValid, Revenue, revenue, date);
      && (date in m <==> v.Some? || w.Some? || s.Some? || rv.Some?)
      && (date in m ==> m[date] == DailyMetrics(date, v.GetOr(0.0), w.GetOr(0.0), s.GetOr(0.0), rv.GetOr(0.0)))
  {
    var m1 := UpsertAll(Views, map[], Entries(DateReader(isoValid, Views), ValueReader(Views), views));
    var m2 := UpsertAll(WatchTime, m1, Entries(DateReader(isoValid, WatchTime), ValueReader(WatchTime), watch));
    var m3 := UpsertAll(Subscribers, m2, Entries(DateReader(isoValid, Subscribers), ValueReader(Subscribers), subs));
    UpsertAllAt(Views, map[], Entries(DateReader(isoValid, Views), ValueReader(Views), views), date);
    UpsertAllAt(WatchTime, m1, Entries(DateReader(isoValid, WatchTime), ValueReader(WatchTime), watch), date);
    UpsertAllAt(Subscribers, m2, Entries(DateReader(isoValid, Subscribers), ValueReader(Subscribers), subs), date);
    UpsertAllAt(Revenue, m3, Entries(DateReader(isoValid, Revenue), ValueReader(Revenue), revenue), date);
  }

  /** Every record of the map is filed under its own date. */
  lemma DailyMapKeyed(isoValid: string -> bool, views: seq<Row>, watch: seq<Row>, subs: seq<Row>, revenue: seq<Row>)
    ensures KeyedBy(DailyMap(isoValid, views, watch, subs, revenue), DateOf)
  {
    var m1 := UpsertAll(Views, map[], Entries(DateReader(isoValid, Views), ValueReader(Views), views));
    var m2 := UpsertAll(WatchTime, m1, Entries(DateReader(isoValid, WatchTime), ValueReader(WatchTime), watch));
    var m3 := UpsertAll(Subscribers, m2, Entries(DateReader(isoValid, Subscribers), ValueReader(Subscribers), subs));
    UpsertAllKeyed(Views, map[], Entries(DateReader(isoValid, Views), ValueReader(Views), views));
    UpsertAllKeyed(WatchTime, m1, Entries(DateReader(isoValid, WatchTime), ValueReader(WatchTime), watch));
    UpsertAllKeyed(Subscribers, m2, Entries(DateReader(isoValid, Subscribers), ValueReader(Subscribers), subs));
    UpsertAllKeyed(Revenue, m3, Entries(DateReader(isoValid, Revenue), ValueReader(Revenue), revenue));
  }

  /** One more row of the loop is one more `Upsert`. */
  lemma UpsertAllStep(kind: Kind, date: Row -> Option<string>, value: Row -> real,
                      m: map<string, DailyMetrics>, rows: seq<Row>, i: nat)
    requires i < |rows|
    ensures UpsertAll(kind, m, Entries(date, value, rows[..i + 1])) ==
      Upsert(kind, UpsertAll(kind, m, Entries(date, value, rows[..i])),
        if date(rows[i]).Some? then Some(Dated(date(rows[i]).value, value(rows[i]))) else None)
  {
    assert rows[..i + 1][..i] == rows[..i];
    var es := Entries(date, value, rows[..i]);
    var e := if date(rows[i]).Some? then Some(Dated(date(rows[i]).value, value(rows[i]))) else None;
    assert Entries(date, value, rows[..i + 1]) == es + [e];
    assert (es + [e])[..|es|] == es;
  }

  /** The same step, stated on the map the loop holds after `i` rows. */
  lemma UpsertRowStep(kind: Kind, date: Row -> Option<string>, value: Row -> real,
                      start: map<string, DailyMetrics>, rows: seq<Row>, i: nat, m: map<string, DailyMetrics>)
    requires i < |rows| && m == UpsertAll(kind, start, Entries(date, value, rows[..i]))
    ensures date(rows[i]).None? ==> UpsertAll(kind, start, Entries(date, value, rows[..i + 1])) == m
    ensures date(rows[i]).Some? ==>
      UpsertAll(kind, start, Entries(date, value, rows[..i + 1]))
        == m[date(rows[i]).value := SetField(Existing(m, date(rows[i]).value), kind, value(rows[i]))]
  {
    UpsertAllStep(kind, date, value, start, rows, i);
  }

  /**
    One row loop as the source runs it, with `upsert` inlined: `date` and `value` are how the
    loop reads a row (`DateReader` and `ValueReader` of its kind).
   */
  method UpsertRows(kind: Kind, date: Row -> Option<string>, value: Row -> real,
                    dateToMetrics: map<string, DailyMetrics>, rows: seq<Row>)
    returns (m: map<string, DailyMetrics>)
    ensures m == UpsertAll(kind, dateToMetrics, Entries(date, value, rows))
  {
    m := dateToMetrics;
    var i := 0;
    while i < |rows|
      invariant 0 <= i <= |rows|
      invariant m == UpsertAll(kind, dateToMetrics, Entries(date, value, rows[..i]))
    {
      UpsertRowStep(kind, date, value, dateToMetrics, rows, i, m);
      var d := date(rows[i]);
      if d.Some? {
        var v := value(rows[i]);
        var current := if d.value in m then m[d.value] else ZeroMetrics(d.value);
        m := m[d.value := SetField(current, kind, v)];
      }
      i := i + 1;
    }
    assert rows[..|rows|] == rows;
  }
}
