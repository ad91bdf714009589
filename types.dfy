/**
  The records the ingestion engine produces and consumes (`DailyMetrics`, `ChannelData`,
  `UploadResult`), the four required kinds with their canonical file names, and CSV rows as
  the tokenizer hands them over: ordered header/value cells, keys trimmed and lower-cased,
  values trimmed.
 */
module Types {
  import opened Wrappers
  import opened Text

  /** One day of one channel. Metric values are reals; floating-point rounding is not modelled. */
  datatype DailyMetrics = DailyMetrics(
    date: string,
    views: real,
    watchTimeMinutes: real,
    subsNet: real,
    revenueUsd: real)

  function DateOf(d: DailyMetrics): string
  {
    d.date
  }

  /** A fresh record for `date` with every metric 0. */
  function ZeroMetrics(date: string): (m: DailyMetrics)
    ensures m.date == date
  {
    DailyMetrics(date, 0.0, 0.0, 0.0, 0.0)
  }

  /** A channel and its daily series (ascending by date once assembled). */
  datatype ChannelData = ChannelData(channelName: string, daily: seq<DailyMetrics>)

  function NameOf(c: ChannelData): string
  {
    c.channelName
  }

  /** What one upload batch yields. */
  datatype UploadResult = UploadResult(channels: seq<ChannelData>, errors: seq<string>, warnings: seq<string>)

  /** The four kinds of file a channel folder must supply. */
  datatype Kind = Views | WatchTime | Subscribers | Revenue

  /** `Object.keys(REQUIRED_FILENAMES)`, in declaration order. */
  const AllKinds: seq<Kind> := [Views, WatchTime, Subscribers, Revenue]

  lemma AllKindsListed(k: Kind)
    ensures k in AllKinds
  {
  }

  /** The kind's key as it is spelled in messages. */
  function KindName(k: Kind): string
  {
    match k
    case Views => "views"
    case WatchTime => "watchTime"
    case Subscribers => "subscribers"
    case Revenue => "revenue"
  }

  /** `REQUIRED_FILENAMES[k]`. */
  function RequiredFilename(k: Kind): string
  {
    match k
    case Views => "views.csv"
    case WatchTime => "watch_time.csv"
    case Subscribers => "subscribers.csv"
    case Revenue => "revenue.csv"
  }

  lemma RequiredFilenamesDistinct(a: Kind, b: Kind)
    ensures RequiredFilename(a) == RequiredFilename(b) ==> a == b
  {
  }

  // ------------------------------------------------------------ CSV rows

  datatype Cell = Cell(key: string, value: string)

  /** One parsed CSV row: header/value pairs in header order. */
  type Row = seq<Cell>

  /** `Object.keys(r)`. */
  function RowKeys(r: Row): (ks: seq<string>)
    ensures |ks| == |r|
  {
    seq(|r|, i requires 0 <= i < |r| => r[i].key)
  }

  /** `r[key]`, with `None` for `undefined`. */
  function Get(r: Row, key: string): (v: Option<string>)
    ensures v.Some? <==> key in RowKeys(r)
    decreases |r|
  {
    if |r| == 0 then None
    else if r[0].key == key then
      assert RowKeys(r)[0] == key;
      Some(r[0].value)
    else
      assert RowKeys(r) == [r[0].key] + RowKeys(r[1..]);
      Get(r[1..], key)
  }

  /** The value read is the one in the first cell under that key. */
  lemma {:induction false} GetFirst(r: Row, i: nat)
    requires i < |r| && forall h :: 0 <= h < i ==> r[h].key != r[i].key
    ensures Get(r, r[i].key) == Some(r[i].value)
    decreases i
  {
    if i > 0 {
      GetFirst(r[1..], i - 1);
    }
  }

  /** `key in r`. */
  predicate Has(r: Row, key: string)
  {
    key in RowKeys(r)
  }

  /** `r[k1] || r[k2] || ... || ''`: the first of the columns that is present and non-empty. */
  function FirstFilled(r: Row, keys: seq<string>): (v: string)
    ensures v != "" ==> exists i :: 0 <= i < |keys| && Get(r, keys[i]) == Some(v)
    ensures v != "" ==> exists i :: 0 <= i < |keys| && Get(r, keys[i]) == Some(v) && forall h :: 0 <= h < i ==> Get(r, keys[h]).GetOr("") == ""
    ensures v == "" <==> forall i :: 0 <= i < |keys| ==> Get(r, keys[i]).GetOr("") == ""
    decreases |keys|
  {
    if |keys| == 0 then ""
    else
      var v := Get(r, keys[0]).GetOr("");
      if v != "" then v
      else
        var rest := FirstFilled(r, keys[1..]);
        assert forall i :: 1 <= i < |keys| ==> keys[i] == keys[1..][i - 1];
        rest
  }

  /** `Object.keys(r).find(k => ...)` for keys containing every one of `subs`. */
  function FirstKeyContaining(r: Row, subs: seq<string>): (k: Option<string>)
    ensures k.Some? ==> k.value in RowKeys(r) && forall j :: 0 <= j < |subs| ==> Contains(k.value, subs[j])
    ensures k.None? ==> forall key :: key in RowKeys(r) ==> exists j :: 0 <= j < |subs| && !Contains(key, subs[j])
    ensures k.Some? ==>
      exists i :: 0 <= i < |r| && r[i].key == k.value &&
        forall h :: 0 <= h < i ==> exists j :: 0 <= j < |subs| && !Contains(r[h].key, subs[j])
    decreases |r|
  {
    if |r| == 0 then None
    else if forall j :: 0 <= j < |subs| ==> Contains(r[0].key, subs[j]) then
      assert RowKeys(r)[0] == r[0].key;
      Some(r[0].key)
    else
      assert RowKeys(r) == [r[0].key] + RowKeys(r[1..]);
      FirstKeyContaining(r[1..], subs)
  }

  /** A CSV file of one folder: its name and its parsed rows. */
  datatype CsvFile = CsvFile(name: string, rows: seq<Row>)
}
