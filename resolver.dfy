/**
  The first half of `parseChannelFolderWithWarnings` (src/lib/csv.ts): which file of a folder
  supplies which of the four kinds. Files are identified by their position in the folder's
  file list. Pass 1 takes the files whose lower-cased name is a canonical name; pass 2, run
  only when a kind is still open, reads the headers of the other `.csv` files in order. The
  folder fails when a kind is still missing afterwards.
 */
module Resolver {
  import opened Wrappers
  import opened Text
  import opened Types
  import opened Detect

  /** The warnings of pass 2. */
  datatype Warning =
    | DuplicateKind(kind: Kind, fileName: string, usedName: string)
    | MultipleFiles(kind: Kind, chosenName: string, ignoredName: string)
    | DetectedByContent(kind: Kind, fileName: string)

  function Quoted(s: string): string
  {
    "\"" + s + "\""
  }

  /** The file a warning is about. */
  function WarnedFile(w: Warning): string
  {
    match w
    case DuplicateKind(_, f, _) => f
    case MultipleFiles(_, _, f) => f
    case DetectedByContent(_, f) => f
  }

  lemma QuotedOccurs(pre: string, name: string, post: string)
    ensures Contains(pre + Quoted(name) + post, Quoted(name))
  {
    var s := pre + Quoted(name) + post;
    assert s[|pre|..|pre| + |Quoted(name)|] == Quoted(name);
    assert OccursAt(s, Quoted(name), |pre|);
  }

  /** The text of a warning; it names the file it is about, in double quotes. */
  function Message(w: Warning): (m: string)
    ensures Contains(m, Quoted(WarnedFile(w)))
  {
    match w
    case DuplicateKind(k, f, used) =>
      var pre := "Duplicate " + KindName(k) + " file detected (";
      var post := ") \U{2014} using " + Quoted(used) + ".";
      QuotedOccurs(pre, f, post);
      pre + Quoted(f) + post
    case MultipleFiles(k, chosen, ignored) =>
      var pre := "Multiple files look like " + KindName(k) + "; using " + Quoted(chosen) + " and ignoring ";
      QuotedOccurs(pre, ignored, ".");
      pre + Quoted(ignored) + "."
    case DetectedByContent(k, f) =>
      var pre := "Detected " + KindName(k) + " by content from ";
      var post := " (expected name " + Quoted(RequiredFilename(k)) + ").";
      QuotedOccurs(pre, f, post);
      pre + Quoted(f) + post
  }

  // ------------------------------------------------------------ pass 1

  /** `new Map(files.map(f => [f.name.toLowerCase(), f]))`: each lower-cased name to its last file. */
  function NameIndex(files: seq<CsvFile>): (m: map<string, nat>)
    ensures forall n :: n in m ==> m[n] < |files| && ToLower(files[m[n]].name) == n
    ensures forall i :: 0 <= i < |files| ==> ToLower(files[i].name) in m && i <= m[ToLower(files[i].name)]
    decreases |files|
  {
    if |files| == 0 then map[]
    else
      var last := |files| - 1;
      assert forall i :: 0 <= i < last ==> files[..last][i] == files[i];
      NameIndex(files[..last])[ToLower(files[last].name) := last]
  }

  /** Pass 1 over `kinds`: the kinds whose canonical name is a file name of the folder. */
  function ExactAmong(index: map<string, nat>, kinds: seq<Kind>): (m: map<Kind, nat>)
    ensures forall k :: k in m <==> k in kinds && RequiredFilename(k) in index
    ensures forall k :: k in m ==> m[k] == index[RequiredFilename(k)]
    decreases |kinds|
  {
    if |kinds| == 0 then map[]
    else
      var k := kinds[|kinds| - 1];
      var m := ExactAmong(index, kinds[..|kinds| - 1]);
      if RequiredFilename(k) in index then m[k := index[RequiredFilename(k)]] else m
  }

  /** The `assignment` map after pass 1. */
  function ByFilename(files: seq<CsvFile>): map<Kind, nat>
  {
    ExactAmong(NameIndex(files), AllKinds)
  }

  /** A file named like a kind's canonical file always fixes that kind in pass 1. */
  lemma CanonicalNameAssigned(files: seq<CsvFile>, i: nat, k: Kind)
    requires i < |files| && ToLower(files[i].name) == RequiredFilename(k)
    ensures k in ByFilename(files) && ByFilename(files)[k] < |files|
    ensures ToLower(files[ByFilename(files)[k]].name) == RequiredFilename(k)
  {
    AllKindsListed(k);
  }

  predicate IndicesBelow(m: map<Kind, nat>, n: nat)
  {
    forall k :: k in m ==> m[k] < n
  }

  lemma ByFilenameIndices(files: seq<CsvFile>)
    ensures IndicesBelow(ByFilename(files), |files|)
  {
  }

  // ------------------------------------------------------------ pass 2

  predicate IsCandidate(files: seq<CsvFile>, used: set<nat>, i: nat)
    requires i < |files|
  {
    i !in used && EndsWith(ToLower(files[i].name), ".csv")
  }

  /** `files.filter(f => !alreadyUsed.has(f) && f.name.toLowerCase().endsWith('.csv'))` over the first `n` files. */
  function Candidates(files: seq<CsvFile>, used: set<nat>, n: nat): (r: seq<nat>)
    requires n <= |files|
    ensures forall j :: 0 <= j < |r| ==> r[j] < n && IsCandidate(files, used, r[j])
    ensures forall i :: 0 <= i < n && IsCandidate(files, used, i) ==> i in r
    ensures forall a, b :: 0 <= a < b < |r| ==> r[a] < r[b]
    decreases n
  {
    if n == 0 then []
    else
      var r := Candidates(files, used, n - 1);
      if IsCandidate(files, used, n - 1) then r + [n - 1] else r
  }

  /** What `detectCsvKind` says of each file of the folder. */
  function KindsOf(files: seq<CsvFile>): (kinds: seq<Option<Kind>>)
    ensures |kinds| == |files|
    decreases |files|
  {
    if |files| == 0 then []
    else KindsOf(files[..|files| - 1]) + [DetectCsvKind(files[|files| - 1].rows)]
  }

  lemma {:induction false} KindsOfAt(files: seq<CsvFile>, i: nat)
    requires i < |files|
    ensures KindsOf(files)[i] == DetectCsvKind(files[i].rows)
    decreases |files|
  {
    if i < |files| - 1 {
      KindsOfAt(files[..|files| - 1], i);
    }
  }

  predicate AllBelow(s: seq<nat>, n: nat)
  {
    forall j :: 0 <= j < |s| ==> s[j] < n
  }

  /** What pass 2 has built so far: `detectedByKind` and the warnings. */
  datatype SniffState = SniffState(detected: map<Kind, nat>, warnings: seq<Warning>)

  /** One iteration of the header loop, for file `i` whose header says `kind`. */
  function SniffStep(files: seq<CsvFile>, exact: map<Kind, nat>, st: SniffState, i: nat, kind: Option<Kind>): SniffState
    requires i < |files| && IndicesBelow(exact, |files|) && IndicesBelow(st.detected, |files|)
  {
    match kind
    case None => st
    case Some(k) =>
      if k in exact then
        SniffState(st.detected, st.warnings + [DuplicateKind(k, files[i].name, files[exact[k]].name)])
      else if k in st.detected then
        SniffState(st.detected, st.warnings + [MultipleFiles(k, files[st.detected[k]].name, files[i].name)])
      else
        var ws := if ToLower(files[i].name) != RequiredFilename(k) then [DetectedByContent(k, files[i].name)] else [];
        SniffState(st.detected[k := i], st.warnings + ws)
  }

  /** The header loop over the candidates, in order; `kinds[i]` is what file `i`'s header says. */
  function Sniff(files: seq<CsvFile>, kinds: seq<Option<Kind>>, exact: map<Kind, nat>, cands: seq<nat>): (st: SniffState)
    requires |kinds| == |files| && IndicesBelow(exact, |files|) && AllBelow(cands, |files|)
    ensures IndicesBelow(st.detected, |files|)
    ensures forall k :: k in st.detected ==> k !in exact
    decreases |cands|
  {
    if |cands| == 0 then SniffState(map[], [])
    else
      var init := cands[..|cands| - 1];
      var i := cands[|cands| - 1];
      SniffStep(files, exact, Sniff(files, kinds, exact, init), i, kinds[i])
  }

  lemma SniffSnoc(files: seq<CsvFile>, kinds: seq<Option<Kind>>, exact: map<Kind, nat>, cands: seq<nat>, j: nat)
    requires |kinds| == |files| && IndicesBelow(exact, |files|) && AllBelow(cands, |files|) && j < |cands|
    ensures Sniff(files, kinds, exact, cands[..j + 1])
         == SniffStep(files, exact, Sniff(files, kinds, exact, cands[..j]), cands[j], kinds[cands[j]])
  {
    assert cands[..j + 1][..j] == cands[..j];
  }

  /** The outcome of both passes: the kind-to-file assignment and the warnings. */
  datatype Resolution = Resolution(assignment: map<Kind, nat>, warnings: seq<Warning>)

  predicate AllAssigned(m: map<Kind, nat>)
  {
    forall k :: k in AllKinds ==> k in m
  }

  function SniffFolder(files: seq<CsvFile>): SniffState
  {
    var exact := ByFilename(files);
    Sniff(files, KindsOf(files), exact, Candidates(files, exact.Values, |files|))
  }

  /** Both passes; pass 2 runs only when pass 1 left a kind open, and never overrides it. */
  function Resolve(files: seq<CsvFile>): (r: Resolution)
    ensures IndicesBelow(r.assignment, |files|)
  {
    var exact := ByFilename(files);
    if AllAssigned(exact) then Resolution(exact, [])
    else
      var st := SniffFolder(files);
      Resolution(st.detected + exact, st.warnings)
  }

  // ------------------------------------------------------- missing check

  function KindRank(k: Kind): nat
  {
    match k
    case Views => 0
    case WatchTime => 1
    case Subscribers => 2
    case Revenue => 3
  }

  predicate RankOrdered(kinds: seq<Kind>)
  {
    forall a, b :: 0 <= a < b < |kinds| ==> KindRank(kinds[a]) < KindRank(kinds[b])
  }

  function MissingIf(k: Kind, assignment: map<Kind, nat>): seq<Kind>
  {
    if k in assignment then [] else [k]
  }

  lemma MissingIfMembers(assignment: map<Kind, nat>)
    ensures forall k :: k !in assignment <==>
      k in MissingIf(Views, assignment) + MissingIf(WatchTime, assignment)
        + (MissingIf(Subscribers, assignment) + MissingIf(Revenue, assignment))
  {
    forall k ensures k !in assignment <==>
      k in MissingIf(Views, assignment) + MissingIf(WatchTime, assignment)
        + (MissingIf(Subscribers, assignment) + MissingIf(Revenue, assignment))
    {
      match k
      case Views =>
      case WatchTime =>
      case Subscribers =>
      case Revenue =>
    }
  }

  /** `missingKinds`: the kinds not assigned, in the order views, watch time, subscribers, revenue. */
  function MissingKinds(assignment: map<Kind, nat>): (r: seq<Kind>)
    ensures forall k :: k in r <==> k !in assignment
    ensures RankOrdered(r)
    ensures |r| == 0 <==> AllAssigned(assignment)
  {
    var a := MissingIf(Views, assignment) + MissingIf(WatchTime, assignment);
    var b := MissingIf(Subscribers, assignment) + MissingIf(Revenue, assignment);
    MissingRanked(assignment);
    MissingIfMembers(assignment);
    a + b
  }

  /** The two halves of `MissingKinds` are each in rank order, and the first ranks below the second. */
  lemma MissingRanked(assignment: map<Kind, nat>)
    ensures RankOrdered(MissingIf(Views, assignment) + MissingIf(WatchTime, assignment)
      + (MissingIf(Subscribers, assignment) + MissingIf(Revenue, assignment)))
  {
    var a := MissingIf(Views, assignment) + MissingIf(WatchTime, assignment);
    var b := MissingIf(Subscribers, assignment) + MissingIf(Revenue, assignment);
    assert forall i :: 0 <= i < |a| ==> KindRank(a[i]) <= 1;
    assert forall j :: 0 <= j < |b| ==> KindRank(b[j]) >= 2;
    RankedConcat(a, b);
  }

  lemma RankedConcat(a: seq<Kind>, b: seq<Kind>)
    requires RankOrdered(a) && RankOrdered(b)
    requires forall i :: 0 <= i < |a| ==> KindRank(a[i]) <= 1
    requires forall j :: 0 <= j < |b| ==> KindRank(b[j]) >= 2
    ensures RankOrdered(a + b)
  {
    forall x, y | 0 <= x < y < |a + b| ensures KindRank((a + b)[x]) < KindRank((a + b)[y]) {
      if y < |a| {
        assert (a + b)[x] == a[x] && (a + b)[y] == a[y];
      } else if x >= |a| {
        assert (a + b)[x] == b[x - |a|] && (a + b)[y] == b[y - |a|];
      } else {
        assert (a + b)[x] == a[x] && (a + b)[y] == b[y - |a|];
      }
    }
  }

  function RequiredFilenames(kinds: seq<Kind>): (names: seq<string>)
    ensures |names| == |kinds|
    ensures forall j :: 0 <= j < |kinds| ==> names[j] == RequiredFilename(kinds[j])
  {
    seq(|kinds|, j requires 0 <= j < |kinds| => RequiredFilename(kinds[j]))
  }

  /** The error a folder fails with when `missing` is not empty. */
  function MissingMessage(folderName: string, missing: seq<Kind>): (m: string)
    ensures StartsWith(m, "Missing file(s) in " + folderName + ": ")
  {
    var pre := "Missing file(s) in " + folderName + ": ";
    var m := pre + Join(RequiredFilenames(missing), ", ");
    assert m[..|pre|] == pre;
    m
  }

  // ---------------------------------------------------- the resolver loops

  /** Builds `lowerNameToFile`. */
  method IndexNames(files: seq<CsvFile>) returns (lowerNameToFile: map<string, nat>)
    ensures lowerNameToFile == NameIndex(files)
  {
    lowerNameToFile := map[];
    var i := 0;
    while i < |files|
      invariant 0 <= i <= |files|
      invariant lowerNameToFile == NameIndex(files[..i])
    {
      assert files[..i + 1][..i] == files[..i];
      lowerNameToFile := lowerNameToFile[ToLower(files[i].name) := i];
      i := i + 1;
    }
    assert files[..|files|] == files;
  }

  /** Pass 1: looks every canonical name up in `lowerNameToFile`. */
  method AssignByFilename(lowerNameToFile: map<string, nat>) returns (assignment: map<Kind, nat>)
    ensures assignment == ExactAmong(lowerNameToFile, AllKinds)
  {
    assignment := map[];
    var n := 0;
    while n < |AllKinds|
      invariant 0 <= n <= |AllKinds|
      invariant assignment == ExactAmong(lowerNameToFile, AllKinds[..n])
    {
      assert AllKinds[..n + 1][..n] == AllKinds[..n];
      var expected := RequiredFilename(AllKinds[n]);
      if expected in lowerNameToFile {
        assignment := assignment[AllKinds[n] := lowerNameToFile[expected]];
      }
      n := n + 1;
    }
    assert AllKinds[..|AllKinds|] == AllKinds;
  }

  /** `csvFiles`: the files pass 1 did not take whose name ends in `.csv`. */
  method CollectCandidates(files: seq<CsvFile>, alreadyUsed: set<nat>) returns (csvFiles: seq<nat>)
    ensures csvFiles == Candidates(files, alreadyUsed, |files|)
  {
    csvFiles := [];
    var i := 0;
    while i < |files|
      invariant 0 <= i <= |files|
      invariant csvFiles == Candidates(files, alreadyUsed, i)
    {
      if i !in alreadyUsed && EndsWith(ToLower(files[i].name), ".csv") {
        csvFiles := csvFiles + [i];
      }
      i := i + 1;
    }
  }

  /** Pass 2: reads the header of each candidate in turn. */
  method SniffCandidates(files: seq<CsvFile>, assignment: map<Kind, nat>, csvFiles: seq<nat>)
    returns (detectedByKind: map<Kind, nat>, warnings: seq<Warning>)
    requires IndicesBelow(assignment, |files|) && AllBelow(csvFiles, |files|)
    ensures SniffState(detectedByKind, warnings) == Sniff(files, KindsOf(files), assignment, csvFiles)
  {
    detectedByKind, warnings := map[], [];
    var j := 0;
    while j < |csvFiles|
      invariant 0 <= j <= |csvFiles|
      invariant SniffState(detectedByKind, warnings) == Sniff(files, KindsOf(files), assignment, csvFiles[..j])
    {
      var f := csvFiles[j];
      var kind := DetectCsvKind(files[f].rows);
      KindsOfAt(files, f);
      SniffSnoc(files, KindsOf(files), assignment, csvFiles, j);
      ghost var before := SniffState(detectedByKind, warnings);
      if kind.Some? {
        var k := kind.value;
        if k in assignment {
          warnings := warnings + [DuplicateKind(k, files[f].name, files[assignment[k]].name)];
        } else if k in detectedByKind {
          warnings := warnings + [MultipleFiles(k, files[detectedByKind[k]].name, files[f].name)];
        } else {
          detectedByKind := detectedByKind[k := f];
          if ToLower(files[f].name) != RequiredFilename(k) {
            warnings := warnings + [DetectedByContent(k, files[f].name)];
          }
        }
      }
      assert SniffState(detectedByKind, warnings) == SniffStep(files, assignment, before, f, kind);
      j := j + 1;
    }
    assert csvFiles[..|csvFiles|] == csvFiles;
  }

  /** Both passes as the source runs them. */
  method ResolveFolder(files: seq<CsvFile>) returns (assignment: map<Kind, nat>, warnings: seq<Warning>)
    ensures Resolution(assignment, warnings) == Resolve(files)
  {
    var lowerNameToFile := IndexNames(files);
    assignment := AssignByFilename(lowerNameToFile);
    warnings := [];
    var remainingKinds := MissingKinds(assignment);
    if |remainingKinds| > 0 {
      var csvFiles := CollectCandidates(files, assignment.Values);
      var detectedByKind;
      detectedByKind, warnings := SniffCandidates(files, assignment, csvFiles);
      assignment := detectedByKind + assignment;
    }
  }
}
