/**
  `parseUploadDirectoryEntries` (src/lib/csv.ts): groups the uploaded files by folder, in the
  order folders are first met, parses each folder on its own and collects channels, error
  messages and folder-prefixed warnings. A folder that fails adds its message and nothing else.
 */
module Batch {
  import opened Wrappers
  import opened Text
  import opened Types
  import opened Folder

  /** An uploaded file with its `webkitRelativePath` (empty when the browser gives none). */
  datatype UploadEntry = UploadEntry(relativePath: string, file: CsvFile)

  /** `name.replace(/\.(csv)$/i, '')`. */
  function StripCsvSuffix(name: string): (r: string)
    ensures EndsWith(ToLower(name), ".csv") ==> r + name[|name| - 4..] == name
    ensures !EndsWith(ToLower(name), ".csv") ==> r == name
  {
    if EndsWith(ToLower(name), ".csv") then
      assert name[..|name| - 4] + name[|name| - 4..] == name;
      name[..|name| - 4]
    else name
  }

  /**
    The folder of an entry: the first segment of its path when the path has a `/`, else its own
    name without a `.csv` suffix.
   */
  function FolderOf(e: UploadEntry): string
  {
    var path := if e.relativePath != "" then e.relativePath else e.file.name;
    var parts := Split(path, "/");
    if |parts| > 1 then parts[0] else StripCsvSuffix(e.file.name)
  }

  /** With a slash in the path the folder is everything before the first slash. */
  lemma FolderOfNested(e: UploadEntry, i: nat)
    requires e.relativePath != "" && IndexOf(e.relativePath, "/") == Some(i)
    ensures FolderOf(e) == e.relativePath[..i]
  {
    SplitAt(e.relativePath, "/", i);
  }

  /** Without a slash anywhere in the path the folder is the file name without `.csv`. */
  lemma FolderOfLoose(e: UploadEntry)
    requires IndexOf(if e.relativePath != "" then e.relativePath else e.file.name, "/") == None
    ensures FolderOf(e) == StripCsvSuffix(e.file.name)
  {
  }

  // -------------------------------------------------------------- grouping

  /** The folder of every entry, in upload order. */
  function FoldersOf(entries: seq<UploadEntry>): (tags: seq<string>)
    ensures |tags| == |entries|
    decreases |entries|
  {
    if |entries| == 0 then []
    else FoldersOf(entries[..|entries| - 1]) + [FolderOf(entries[|entries| - 1])]
  }

  lemma {:induction false} FoldersOfAt(entries: seq<UploadEntry>, i: nat)
    requires i < |entries|
    ensures FoldersOf(entries)[i] == FolderOf(entries[i])
    decreases |entries|
  {
    if i < |entries| - 1 {
      FoldersOfAt(entries[..|entries| - 1], i);
    }
  }

  /** The folders in the order they are first met (`tags[i]` is the folder of entry `i`). */
  function Order(tags: seq<string>): seq<string>
    decreases |tags|
  {
    if |tags| == 0 then []
    else
      var order := Order(tags[..|tags| - 1]);
      var f := tags[|tags| - 1];
      if f in order then order else order + [f]
  }

  /** The files of folder `f`, in upload order. */
  function FilesOf(tags: seq<string>, entries: seq<UploadEntry>, f: string): seq<CsvFile>
    requires |tags| == |entries|
    decreases |entries|
  {
    if |entries| == 0 then []
    else
      var n := |entries| - 1;
      FilesOf(tags[..n], entries[..n], f) + if tags[n] == f then [entries[n].file] else []
  }

  /** `byFolder` after the grouping loop. */
  function Groups(tags: seq<string>, entries: seq<UploadEntry>): map<string, seq<CsvFile>>
    requires |tags| == |entries|
    decreases |entries|
  {
    if |entries| == 0 then map[]
    else
      var n := |entries| - 1;
      var groups := Groups(tags[..n], entries[..n]);
      groups[tags[n] := (if tags[n] in groups then groups[tags[n]] else []) + [entries[n].file]]
  }

  predicate Distinct(s: seq<string>)
  {
    forall i, j :: 0 <= i < j < |s| ==> s[i] != s[j]
  }

  /**
    Every entry lands in its own folder's group, in upload order; the folders are listed once
    each, exactly those of some entry, and each group holds the folder's files and no others.
   */
  lemma {:induction false} GroupsMeaning(tags: seq<string>, entries: seq<UploadEntry>)
    requires |tags| == |entries|
    ensures Distinct(Order(tags))
    ensures forall f :: f in Order(tags) <==> f in tags
    ensures forall f :: f in Groups(tags, entries) <==> f in Order(tags)
    ensures forall f :: f in Groups(tags, entries) ==> Groups(tags, entries)[f] == FilesOf(tags, entries, f)
    decreases |entries|
  {
    if |entries| > 0 {
      var n := |entries| - 1;
      GroupsMeaning(tags[..n], entries[..n]);
      assert tags == tags[..n] + [tags[n]];
      forall f | f in Groups(tags, entries) && f !in Groups(tags[..n], entries[..n])
        ensures FilesOf(tags[..n], entries[..n], f) == []
      {
        EmptyFilesOf(tags[..n], entries[..n], f);
      }
    }
  }

  lemma {:induction false} EmptyFilesOf(tags: seq<string>, entries: seq<UploadEntry>, f: string)
    requires |tags| == |entries| && f !in tags
    ensures FilesOf(tags, entries, f) == []
    decreases |entries|
  {
    if |entries| > 0 {
      EmptyFilesOf(tags[..|entries| - 1], entries[..|entries| - 1], f);
    }
  }

  /** Over an upload: the folders are those of the entries, and each group is its folder's files. */
  lemma UploadGroups(entries: seq<UploadEntry>)
    ensures var tags := FoldersOf(entries);
      && Distinct(Order(tags))
      && (forall f :: f in Order(tags) <==> exists i :: 0 <= i < |entries| && FolderOf(entries[i]) == f)
      && (forall f :: f in Groups(tags, entries) <==> f in Order(tags))
  {
    var tags := FoldersOf(entries);
    GroupsMeaning(tags, entries);
    forall i | 0 <= i < |entries| ensures tags[i] == FolderOf(entries[i]) {
      FoldersOfAt(entries, i);
    }
  }

  lemma GroupStep(tags: seq<string>, entries: seq<UploadEntry>, i: nat)
    requires |tags| == |entries| && i < |entries|
    ensures Order(tags[..i + 1]) == if tags[i] in Order(tags[..i]) then Order(tags[..i]) else Order(tags[..i]) + [tags[i]]
    ensures var g := Groups(tags[..i], entries[..i]);
      Groups(tags[..i + 1], entries[..i + 1]) == g[tags[i] := (if tags[i] in g then g[tags[i]] else []) + [entries[i].file]]
  {
    assert tags[..i + 1][..i] == tags[..i];
    assert entries[..i + 1][..i] == entries[..i];
  }

  lemma OverwriteEntry(m: map<string, seq<CsvFile>>, k: string, v: seq<CsvFile>, w: seq<CsvFile>)
    ensures m[k := v][k := w] == m[k := w]
  {
  }

  /** One step of the grouping loop, from the state after `i` entries. */
  lemma GroupInto(tags: seq<string>, entries: seq<UploadEntry>, i: nat, folders: seq<string>, g: map<string, seq<CsvFile>>)
    requires |tags| == |entries| && i < |entries|
    requires folders == Order(tags[..i]) && g == Groups(tags[..i], entries[..i])
    ensures Order(tags[..i + 1]) == if tags[i] in g then folders else folders + [tags[i]]
    ensures Groups(tags[..i + 1], entries[..i + 1]) == g[tags[i] := (if tags[i] in g then g[tags[i]] else []) + [entries[i].file]]
  {
    GroupStep(tags, entries, i);
    GroupedFolder(tags[..i], entries[..i], tags[i]);
  }

  lemma GroupedFolder(tags: seq<string>, entries: seq<UploadEntry>, f: string)
    requires |tags| == |entries|
    ensures f in Groups(tags, entries) <==> f in Order(tags)
  {
    GroupsMeaning(tags, entries);
  }

  /** The grouping loop. */
  method GroupByFolder(entries: seq<UploadEntry>) returns (folders: seq<string>, byFolder: map<string, seq<CsvFile>>)
    ensures folders == Order(FoldersOf(entries)) && byFolder == Groups(FoldersOf(entries), entries)
  {
    ghost var tags := FoldersOf(entries);
    folders, byFolder := [], map[];
    var i := 0;
    while i < |entries|
      invariant 0 <= i <= |entries|
      invariant folders == Order(tags[..i]) && byFolder == Groups(tags[..i], entries[..i])
    {
      var folder := FolderOf(entries[i]);
      FoldersOfAt(entries, i);
      GroupInto(tags, entries, i, folders, byFolder);
      ghost var g := byFolder;
      if folder !in byFolder {
        byFolder := byFolder[folder := []];
        folders := folders + [folder];
      }
      byFolder := byFolder[folder := byFolder[folder] + [entries[i].file]];
      if folder !in g {
        OverwriteEntry(g, folder, [], [] + [entries[i].file]);
      }
      i := i + 1;
    }
    assert tags[..|entries|] == tags && entries[..|entries|] == entries;
  }

  // ------------------------------------------------------------ collecting

  /** `ws.map((w) => `${folder}: ${w}`)`. */
  function Prefixed(folder: string, ws: seq<string>): (r: seq<string>)
    ensures |r| == |ws|
    ensures forall i :: 0 <= i < |ws| ==> StartsWith(r[i], folder + ": ") && r[i][|folder| + 2..] == ws[i]
  {
    seq(|ws|, i requires 0 <= i < |ws| => folder + ": " + ws[i])
  }

  /** What one folder adds to the batch result. */
  function Contribute(acc: UploadResult, folder: string, out: FolderResult): UploadResult
  {
    match out
    case Failed(message) => acc.(errors := acc.errors + [message])
    case Parsed(channel, ws) => acc.(channels := acc.channels + [channel], warnings := acc.warnings + Prefixed(folder, ws))
  }

  /** The per-folder loop, given each folder's outcome (`outs[i]` is that of `folders[i]`). */
  function Collect(folders: seq<string>, outs: seq<FolderResult>): UploadResult
    requires |outs| == |folders|
    decreases |folders|
  {
    if |folders| == 0 then UploadResult([], [], [])
    else
      var n := |folders| - 1;
      Contribute(Collect(folders[..n], outs[..n]), folders[n], outs[n])
  }

  /** The outcome of every folder. */
  ghost function Outcomes(isoValid: string -> bool, folders: seq<string>, groups: map<string, seq<CsvFile>>)
    : (outs: seq<FolderResult>)
    requires forall f :: f in folders ==> f in groups
    ensures |outs| == |folders|
  {
    seq(|folders|, i requires 0 <= i < |folders| => FolderOutcome(isoValid, folders[i], groups[folders[i]]))
  }

  /** What a batch of uploaded files yields. */
  ghost function UploadOutcome(isoValid: string -> bool, entries: seq<UploadEntry>): UploadResult
  {
    var tags := FoldersOf(entries);
    GroupsMeaning(tags, entries);
    Collect(Order(tags), Outcomes(isoValid, Order(tags), Groups(tags, entries)))
  }

  lemma CollectStep(folders: seq<string>, outs: seq<FolderResult>, i: nat)
    requires |outs| == |folders| && i < |folders|
    ensures Collect(folders[..i + 1], outs[..i + 1]) == Contribute(Collect(folders[..i], outs[..i]), folders[i], outs[i])
  {
    assert folders[..i + 1][..i] == folders[..i];
    assert outs[..i + 1][..i] == outs[..i];
  }

  /** The per-folder loop: each folder is parsed on its own; a failure only records its message. */
  method CollectFolders(isoValid: string -> bool, folders: seq<string>, byFolder: map<string, seq<CsvFile>>)
    returns (result: UploadResult)
    requires forall f :: f in folders ==> f in byFolder
    ensures result == Collect(folders, Outcomes(isoValid, folders, byFolder))
  {
    ghost var outs := Outcomes(isoValid, folders, byFolder);
    var channels, errors, warnings := [], [], [];
    var i := 0;
    while i < |folders|
      invariant 0 <= i <= |folders|
      invariant UploadResult(channels, errors, warnings) == Collect(folders[..i], outs[..i])
    {
      CollectStep(folders, outs, i);
      var folder := folders[i];
      var out := ParseChannelFolderWithWarnings(isoValid, folder, byFolder[folder]);
      assert out == outs[i];
      ghost var before := UploadResult(channels, errors, warnings);
      match out {
        case Failed(message) =>
          errors := errors + [message];
        case Parsed(channel, ws) =>
          channels := channels + [channel];
          if |ws| > 0 {
            warnings := warnings + Prefixed(folder, ws);
          }
      }
      assert UploadResult(channels, errors, warnings) == Contribute(before, folder, out);
      i := i + 1;
    }
    assert folders[..|folders|] == folders && outs[..|folders|] == outs;
    result := UploadResult(channels, errors, warnings);
  }

  /** The source's function: the grouping loop, then the per-folder loop. */
  method ParseUploadDirectoryEntries(isoValid: string -> bool, entries: seq<UploadEntry>) returns (result: UploadResult)
    ensures result == UploadOutcome(isoValid, entries)
  {
    var folders, byFolder := GroupByFolder(entries);
    GroupsMeaning(FoldersOf(entries), entries);
    result := CollectFolders(isoValid, folders, byFolder);
  }

  // ----------------------------------------------------------------- facts

  /** The batch result concatenates what each folder contributes on its own. */
  lemma {:induction false} CollectAppend(a: seq<string>, outsA: seq<FolderResult>, b: seq<string>, outsB: seq<FolderResult>)
    requires |outsA| == |a| && |outsB| == |b|
    ensures var x := Collect(a, outsA); var y := Collect(b, outsB);
      Collect(a + b, outsA + outsB) == UploadResult(x.channels + y.channels, x.errors + y.errors, x.warnings + y.warnings)
    decreases |b|
  {
    if |b| == 0 {
      assert a + b == a && outsA + outsB == outsA;
    } else {
      var n := |b| - 1;
      assert (a + b)[..|a + b| - 1] == a + b[..n];
      assert (outsA + outsB)[..|a + b| - 1] == outsA + outsB[..n];
      CollectAppend(a, outsA, b[..n], outsB[..n]);
    }
  }

  /**
    A failing folder is isolated: the batch holds the same channels and warnings as without it,
    and its message sits among the errors between those of the folders before and after it.
   */
  lemma FailingFolderIsolated(before: seq<string>, outsBefore: seq<FolderResult>, f: string, out: FolderResult,
                              after: seq<string>, outsAfter: seq<FolderResult>)
    requires |outsBefore| == |before| && |outsAfter| == |after|
    requires out.Failed?
    ensures var with := Collect(before + [f] + after, outsBefore + [out] + outsAfter);
      var without := Collect(before + after, outsBefore + outsAfter);
      && with.channels == without.channels
      && with.warnings == without.warnings
      && with.errors == Collect(before, outsBefore).errors + [out.message] + Collect(after, outsAfter).errors
  {
    CollectAppend(before + [f], outsBefore + [out], after, outsAfter);
    CollectAppend(before, outsBefore, [f], [out]);
    CollectAppend(before, outsBefore, after, outsAfter);
    assert [f][..0] == [] && [out][..0] == [];
  }

  /** Every folder yields exactly one channel or one error. */
  lemma {:induction false} EachFolderAccounted(folders: seq<string>, outs: seq<FolderResult>)
    requires |outs| == |folders|
    ensures |Collect(folders, outs).channels| + |Collect(folders, outs).errors| == |folders|
    decreases |folders|
  {
    if |folders| > 0 {
      EachFolderAccounted(folders[..|folders| - 1], outs[..|folders| - 1]);
    }
  }

  /** The names of a channel list, in order. */
  function NamesOf(channels: seq<ChannelData>): (names: seq<string>)
    ensures |names| == |channels|
  {
    seq(|channels|, i requires 0 <= i < |channels| => channels[i].channelName)
  }

  /**
    When each parsed folder's channel carries the folder's name, the batch's channels are named
    after distinct folders, and every warning starts with the name of its folder.
   */
  lemma {:induction false} ChannelsNamedByFolder(folders: seq<string>, outs: seq<FolderResult>)
    requires |outs| == |folders| && Distinct(folders)
    requires forall i :: 0 <= i < |folders| && outs[i].Parsed? ==> outs[i].channel.channelName == folders[i]
    ensures var r := Collect(folders, outs);
      && (forall i :: 0 <= i < |r.channels| ==> r.channels[i].channelName in folders)
      && Distinct(NamesOf(r.channels))
      && (forall i :: 0 <= i < |r.warnings| ==> exists f :: f in folders && StartsWith(r.warnings[i], f + ": "))
    decreases |folders|
  {
    if |folders| > 0 {
      var n := |folders| - 1;
      var init := folders[..n];
      var f := folders[n];
      ChannelsNamedByFolder(init, outs[..n]);
      var prev := Collect(init, outs[..n]);
      var out := outs[n];
      assert forall g :: g in init ==> g in folders;
      assert f !in init;
      if out.Parsed? {
        var r := Collect(folders, outs);
        assert NamesOf(r.channels) == NamesOf(prev.channels) + [f];
        forall i | 0 <= i < |r.warnings| ensures exists g :: g in folders && StartsWith(r.warnings[i], g + ": ") {
          if i >= |prev.warnings| {
            assert StartsWith(r.warnings[i], f + ": ");
          } else {
            assert r.warnings[i] == prev.warnings[i];
          }
        }
      }
    }
  }

  /** Over a whole upload: one result per folder, channels named by distinct folders of the upload. */
  lemma UploadAccounted(isoValid: string -> bool, entries: seq<UploadEntry>)
    ensures var r := UploadOutcome(isoValid, entries);
      && |r.channels| + |r.errors| == |Order(FoldersOf(entries))|
      && Distinct(NamesOf(r.channels))
      && (forall i :: 0 <= i < |r.channels| ==>
            exists j :: 0 <= j < |entries| && FolderOf(entries[j]) == r.channels[i].channelName)
  {
    var tags := FoldersOf(entries);
    UploadGroups(entries);
    var order := Order(tags);
    var groups := Groups(tags, entries);
    var outs := Outcomes(isoValid, order, groups);
    forall i | 0 <= i < |order| && outs[i].Parsed? ensures outs[i].channel.channelName == order[i] {
      ParsedChannel(isoValid, order[i], groups[order[i]]);
    }
    EachFolderAccounted(order, outs);
    ChannelsNamedByFolder(order, outs);
  }
}
