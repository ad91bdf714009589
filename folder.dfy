/**
  `parseChannelFolderWithWarnings` (src/lib/csv.ts) end to end: resolve which file holds each
  kind, fail with the list of missing canonical names, else run the four row loops and return
  the channel named after its folder with its days in ascending date order, together with the
  resolver's warnings as text.
 */
module Folder {
  import opened Wrappers
  import opened Text
  import opened Types
  import opened Keyed
  import opened Resolver
  import opened Extract

  /** The outcome of one folder: the thrown error's message, or the channel and its warnings. */
  datatype FolderResult = Failed(message: string) | Parsed(channel: ChannelData, warnings: seq<string>)

  function Messages(ws: seq<Warning>): (ms: seq<string>)
    ensures |ms| == |ws|
  {
    seq(|ws|, i requires 0 <= i < |ws| => Message(ws[i]))
  }

  /** The rows of the file assigned to `kind`. */
  function RowsFor(files: seq<CsvFile>, assignment: map<Kind, nat>, kind: Kind): seq<Row>
    requires kind in assignment && IndicesBelow(assignment, |files|)
  {
    files[assignment[kind]].rows
  }

  /** The `dateToMetrics` map the four loops build over the assigned files. */
  function FolderDaily(isoValid: string -> bool, files: seq<CsvFile>, assignment: map<Kind, nat>)
    : map<string, DailyMetrics>
    requires AllAssigned(assignment) && IndicesBelow(assignment, |files|)
  {
    DailyMap(isoValid, RowsFor(files, assignment, Views), RowsFor(files, assignment, WatchTime),
      RowsFor(files, assignment, Subscribers), RowsFor(files, assignment, Revenue))
  }

  /** What the folder yields. */
  ghost function FolderOutcome(isoValid: string -> bool, folderName: string, files: seq<CsvFile>): FolderResult
  {
    var res := Resolve(files);
    var missing := MissingKinds(res.assignment);
    if |missing| > 0 then Failed(MissingMessage(folderName, missing))
    else
      var daily := SortByKey(FolderDaily(isoValid, files, res.assignment));
      Parsed(ChannelData(folderName, daily), Messages(res.warnings))
  }

  /** The four row loops over the assigned files, then the sort by date. */
  method BuildDaily(isoValid: string -> bool, files: seq<CsvFile>, assignment: map<Kind, nat>)
    returns (daily: seq<DailyMetrics>)
    requires AllAssigned(assignment) && IndicesBelow(assignment, |files|)
    ensures daily == SortByKey(FolderDaily(isoValid, files, assignment))
  {
    var dateToMetrics := map[];
    dateToMetrics := UpsertRows(Views, DateReader(isoValid, Views), ValueReader(Views),
      dateToMetrics, files[assignment[Views]].rows);
    dateToMetrics := UpsertRows(WatchTime, DateReader(isoValid, WatchTime), ValueReader(WatchTime),
      dateToMetrics, files[assignment[WatchTime]].rows);
    dateToMetrics := UpsertRows(Subscribers, DateReader(isoValid, Subscribers), ValueReader(Subscribers),
      dateToMetrics, files[assignment[Subscribers]].rows);
    dateToMetrics := UpsertRows(Revenue, DateReader(isoValid, Revenue), ValueReader(Revenue),
      dateToMetrics, files[assignment[Revenue]].rows);
    daily := SortedValues(dateToMetrics);
  }

  /** The source's function, step by step. */
  method ParseChannelFolderWithWarnings(isoValid: string -> bool, folderName: string, files: seq<CsvFile>)
    returns (result: FolderResult)
    ensures result == FolderOutcome(isoValid, folderName, files)
  {
    var assignment, ws := ResolveFolder(files);
    var missing := MissingKinds(assignment);
    if |missing| > 0 {
      return Failed(MissingMessage(folderName, missing));
    }
    var warnings := Messages(ws);
    var daily := BuildDaily(isoValid, files, assignment);
    result := Parsed(ChannelData(folderName, daily), warnings);
  }

  // ---------------------------------------------------------------- facts

  /** A folder fails exactly when some kind could be placed neither by name nor by header. */
  lemma FailsIffMissing(isoValid: string -> bool, folderName: string, files: seq<CsvFile>)
    ensures var out := FolderOutcome(isoValid, folderName, files);
      && (out.Failed? <==> exists k :: k !in Resolve(files).assignment)
      && (out.Failed? ==> StartsWith(out.message, "Missing file(s) in " + folderName + ": "))
  {
    var a := Resolve(files).assignment;
    if !AllAssigned(a) {
      var k :| k in AllKinds && k !in a;
    } else {
      forall k ensures k in a {
        AllKindsListed(k);
      }
    }
  }

  /** Which canonical names the error lists: those of the unplaced kinds, in declaration order. */
  lemma MissingNamesListed(isoValid: string -> bool, folderName: string, files: seq<CsvFile>)
    requires FolderOutcome(isoValid, folderName, files).Failed?
    ensures var missing := MissingKinds(Resolve(files).assignment);
      && FolderOutcome(isoValid, folderName, files).message ==
         "Missing file(s) in " + folderName + ": " + Join(RequiredFilenames(missing), ", ")
      && (forall k :: k in missing <==> k !in Resolve(files).assignment)
      && RankOrdered(missing)
  {
  }

  /**
    A parsed channel is named after its folder, its days are strictly ascending (one record per
    date), it carries one warning text per resolver warning, and each day's record holds the
    last value each assigned file gives for that date (0 where the file has none).
   */
  lemma ParsedChannel(isoValid: string -> bool, folderName: string, files: seq<CsvFile>)
    requires FolderOutcome(isoValid, folderName, files).Parsed?
    ensures var out := FolderOutcome(isoValid, folderName, files);
      && out.channel.channelName == folderName
      && SortedBy(out.channel.daily, DateOf)
      && |out.warnings| == |Resolve(files).warnings|
      && (forall i :: 0 <= i < |out.warnings| ==>
            Contains(out.warnings[i], Quoted(WarnedFile(Resolve(files).warnings[i]))))
  {
    var a := Resolve(files).assignment;
    var m := FolderDaily(isoValid, files, a);
    DailyMapKeyed(isoValid, RowsFor(files, a, Views), RowsFor(files, a, WatchTime),
      RowsFor(files, a, Subscribers), RowsFor(files, a, Revenue));
    IndexOfSortByKey(m, DateOf);
  }

  /** The record a parsed channel holds for a day, and which days it holds. */
  lemma ParsedDay(isoValid: string -> bool, folderName: string, files: seq<CsvFile>, date: string)
    requires FolderOutcome(isoValid, folderName, files).Parsed?
    ensures var a := Resolve(files).assignment;
      var daily := FolderOutcome(isoValid, folderName, files).channel.daily;
      var v := LastValue(isoValid, Views, RowsFor(files, a, Views), date);
      var w := LastValue(isoValid, WatchTime, RowsFor(files, a, WatchTime), date);
      var s := LastValue(isoValid, Subscribers, RowsFor(files, a, Subscribers), date);
      var rv := LastValue(isoValid, Revenue, RowsFor(files, a, Revenue), date);
      && (date in KeysOf(daily, DateOf) <==> v.Some? || w.Some? || s.Some? || rv.Some?)
      && (forall d :: d in daily && d.date == date ==>
            d == DailyMetrics(date, v.GetOr(0.0), w.GetOr(0.0), s.GetOr(0.0), rv.GetOr(0.0)))
  {
    var a := Resolve(files).assignment;
    var views, watch := RowsFor(files, a, Views), RowsFor(files, a, WatchTime);
    var subs, revenue := RowsFor(files, a, Subscribers), RowsFor(files, a, Revenue);
    var m := FolderDaily(isoValid, files, a);
    var daily := SortByKey(m);
    DailyMapAt(isoValid, views, watch, subs, revenue, date);
    DailyMapKeyed(isoValid, views, watch, subs, revenue);
    IndexOfSortByKey(m, DateOf);
    assert IndexBy(daily, DateOf) == m;
    forall d | d in daily && d.date == date
      ensures d == DailyMetrics(date, LastValue(isoValid, Views, views, date).GetOr(0.0),
        LastValue(isoValid, WatchTime, watch, date).GetOr(0.0),
        LastValue(isoValid, Subscribers, subs, date).GetOr(0.0),
        LastValue(isoValid, Revenue, revenue, date).GetOr(0.0))
    {
      var i :| 0 <= i < |daily| && daily[i] == d;
      SortByKeyAt(m, i);
    }
  }
}
