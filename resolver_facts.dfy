/**
  What the two passes of the folder resolver guarantee: the filename assignment is final,
  the first header match of a kind wins, every other match and every winner is reported,
  and a kind is missing exactly when neither pass finds a file for it.
 */
module ResolverFacts {
  import opened Wrappers
  import opened Text
  import opened Types
  import opened Detect
  import opened Resolver

  /** The position in `cands` of the first file whose header says `k`. */
  function FirstWith(kinds: seq<Option<Kind>>, cands: seq<nat>, k: Kind): (r: Option<nat>)
    requires AllBelow(cands, |kinds|)
    ensures r.Some? ==> r.value < |cands| && kinds[cands[r.value]] == Some(k)
    ensures r.Some? ==> forall j :: 0 <= j < r.value ==> kinds[cands[j]] != Some(k)
    ensures r.None? ==> forall j :: 0 <= j < |cands| ==> kinds[cands[j]] != Some(k)
    decreases |cands|
  {
    if |cands| == 0 then None
    else
      var init := cands[..|cands| - 1];
      var p := FirstWith(kinds, init, k);
      if p.Some? then p
      else if kinds[cands[|cands| - 1]] == Some(k) then Some(|cands| - 1)
      else None
  }

  /** The header loop keeps, for each kind, the first candidate that has it, unless pass 1 fixed the kind. */
  lemma {:induction false} SniffDetected(
    files: seq<CsvFile>, kinds: seq<Option<Kind>>, exact: map<Kind, nat>, cands: seq<nat>, k: Kind)
    requires |kinds| == |files| && IndicesBelow(exact, |files|) && AllBelow(cands, |files|)
    ensures var st := Sniff(files, kinds, exact, cands);
      && (k in st.detected <==> k !in exact && FirstWith(kinds, cands, k).Some?)
      && (k in st.detected ==> st.detected[k] == cands[FirstWith(kinds, cands, k).value])
    decreases |cands|
  {
    if |cands| > 0 {
      var init := cands[..|cands| - 1];
      SniffDetected(files, kinds, exact, init, k);
    }
  }

  /** The warnings of a prefix of the candidates come first. */
  lemma {:induction false} SniffPrefix(
    files: seq<CsvFile>, kinds: seq<Option<Kind>>, exact: map<Kind, nat>, cands: seq<nat>, n: nat)
    requires |kinds| == |files| && IndicesBelow(exact, |files|) && AllBelow(cands, |files|) && n <= |cands|
    ensures Sniff(files, kinds, exact, cands[..n]).warnings <= Sniff(files, kinds, exact, cands).warnings
    decreases |cands|
  {
    if n < |cands| {
      var init := cands[..|cands| - 1];
      SniffPrefix(files, kinds, exact, init, n);
      assert init[..n] == cands[..n];
    } else {
      assert cands[..n] == cands;
    }
  }

  /** A warning issued for a prefix of the candidates survives to the end of the loop. */
  lemma WarnedInPrefix(
    files: seq<CsvFile>, kinds: seq<Option<Kind>>, exact: map<Kind, nat>, cands: seq<nat>, pre: seq<nat>, w: Warning)
    requires |kinds| == |files| && IndicesBelow(exact, |files|) && AllBelow(cands, |files|) && pre <= cands
    requires w in Sniff(files, kinds, exact, pre).warnings
    ensures w in Sniff(files, kinds, exact, cands).warnings
  {
    assert pre == cands[..|pre|];
    SniffPrefix(files, kinds, exact, cands, |pre|);
    InPrefix(Sniff(files, kinds, exact, pre).warnings, Sniff(files, kinds, exact, cands).warnings, w);
  }

  lemma InPrefix<T>(a: seq<T>, b: seq<T>, w: T)
    requires a <= b && w in a
    ensures w in b
  {
    var x :| 0 <= x < |a| && a[x] == w;
    assert b[x] == w;
  }

  /** The candidates of a folder: the files pass 1 left, whose name ends in `.csv`, in order. */
  function CandidatesOf(files: seq<CsvFile>): (r: seq<nat>)
    ensures AllBelow(r, |files|)
  {
    Candidates(files, ByFilename(files).Values, |files|)
  }

  // ------------------------------------------------------------- pass 1 is final

  /** A kind fixed by its file name keeps that file, whatever the headers of other files say. */
  lemma ExactAssignmentKept(files: seq<CsvFile>, k: Kind)
    requires k in ByFilename(files)
    ensures k in Resolve(files).assignment && Resolve(files).assignment[k] == ByFilename(files)[k]
  {
  }

  /** A header match for a kind pass 1 already fixed yields a "Duplicate" warning naming both files. */
  lemma DuplicateWarned(files: seq<CsvFile>, j: nat, k: Kind)
    requires !AllAssigned(ByFilename(files))
    requires j < |CandidatesOf(files)| && KindsOf(files)[CandidatesOf(files)[j]] == Some(k)
    requires k in ByFilename(files)
    ensures DuplicateKind(k, files[CandidatesOf(files)[j]].name, files[ByFilename(files)[k]].name)
      in Resolve(files).warnings
  {
    var exact, cands, kinds := ByFilename(files), CandidatesOf(files), KindsOf(files);
    ByFilenameIndices(files);
    SniffSnoc(files, kinds, exact, cands, j);
    WarnedInPrefix(files, kinds, exact, cands, cands[..j + 1],
      DuplicateKind(k, files[cands[j]].name, files[exact[k]].name));
  }

  // ------------------------------------------------------- first match wins

  /** Among the header matches for a kind pass 1 left open, the first candidate is used. */
  lemma FirstDetectedWins(files: seq<CsvFile>, j: nat, k: Kind)
    requires !AllAssigned(ByFilename(files)) && k !in ByFilename(files)
    requires j < |CandidatesOf(files)| && KindsOf(files)[CandidatesOf(files)[j]] == Some(k)
    requires forall i :: 0 <= i < j ==> KindsOf(files)[CandidatesOf(files)[i]] != Some(k)
    ensures k in Resolve(files).assignment && Resolve(files).assignment[k] == CandidatesOf(files)[j]
  {
    var exact, cands, kinds := ByFilename(files), CandidatesOf(files), KindsOf(files);
    ByFilenameIndices(files);
    ResolveWhenOpen(files);
    SniffDetected(files, kinds, exact, cands, k);
    FirstWithIs(kinds, cands, k, j);
  }

  /** A candidate with kind `k` and none before it is the first with `k`. */
  lemma FirstWithIs(kinds: seq<Option<Kind>>, cands: seq<nat>, k: Kind, j: nat)
    requires AllBelow(cands, |kinds|) && j < |cands| && kinds[cands[j]] == Some(k)
    requires forall i :: 0 <= i < j ==> kinds[cands[i]] != Some(k)
    ensures FirstWith(kinds, cands, k) == Some(j)
  {
  }

  lemma ResolveWhenOpen(files: seq<CsvFile>)
    requires !AllAssigned(ByFilename(files))
    ensures ByFilenameIndicesHold(files)
    ensures Resolve(files).assignment
      == Sniff(files, KindsOf(files), ByFilename(files), CandidatesOf(files)).detected + ByFilename(files)
    ensures Resolve(files).warnings == Sniff(files, KindsOf(files), ByFilename(files), CandidatesOf(files)).warnings
  {
    ByFilenameIndices(files);
  }

  /** Every later header match for that kind yields a "Multiple files" warning naming the winner. */
  lemma LaterDetectedIgnored(files: seq<CsvFile>, first: nat, j: nat, k: Kind)
    requires !AllAssigned(ByFilename(files)) && k !in ByFilename(files)
    requires first < j < |CandidatesOf(files)|
    requires KindsOf(files)[CandidatesOf(files)[first]] == Some(k)
    requires forall i :: 0 <= i < first ==> KindsOf(files)[CandidatesOf(files)[i]] != Some(k)
    requires KindsOf(files)[CandidatesOf(files)[j]] == Some(k)
    ensures MultipleFiles(k, files[CandidatesOf(files)[first]].name, files[CandidatesOf(files)[j]].name)
      in Resolve(files).warnings
  {
    ByFilenameIndices(files);
    SniffIgnoresLater(files, KindsOf(files), ByFilename(files), CandidatesOf(files), first, j, k);
  }

  lemma SniffIgnoresLater(
    files: seq<CsvFile>, kinds: seq<Option<Kind>>, exact: map<Kind, nat>, cands: seq<nat>, first: nat, j: nat, k: Kind)
    requires |kinds| == |files| && IndicesBelow(exact, |files|) && AllBelow(cands, |files|) && k !in exact
    requires first < j < |cands| && kinds[cands[first]] == Some(k) && kinds[cands[j]] == Some(k)
    requires forall i :: 0 <= i < first ==> kinds[cands[i]] != Some(k)
    ensures MultipleFiles(k, files[cands[first]].name, files[cands[j]].name)
      in Sniff(files, kinds, exact, cands).warnings
  {
    DetectedBefore(files, kinds, exact, cands, first, j, k);
    SniffSnoc(files, kinds, exact, cands, j);
    var st := Sniff(files, kinds, exact, cands[..j]);
    assert SniffStep(files, exact, st, cands[j], Some(k)).warnings
      == st.warnings + [MultipleFiles(k, files[cands[first]].name, files[cands[j]].name)];
    WarnedInPrefix(files, kinds, exact, cands, cands[..j + 1],
      MultipleFiles(k, files[cands[first]].name, files[cands[j]].name));
  }

  lemma DetectedBefore(
    files: seq<CsvFile>, kinds: seq<Option<Kind>>, exact: map<Kind, nat>, cands: seq<nat>, first: nat, j: nat, k: Kind)
    requires |kinds| == |files| && IndicesBelow(exact, |files|) && AllBelow(cands, |files|) && k !in exact
    requires first < j <= |cands| && kinds[cands[first]] == Some(k)
    requires forall i :: 0 <= i < first ==> kinds[cands[i]] != Some(k)
    ensures var st := Sniff(files, kinds, exact, cands[..j]);
      k in st.detected && st.detected[k] == cands[first]
  {
    var pre := cands[..j];
    SniffDetected(files, kinds, exact, pre, k);
    FirstWithIs(kinds, pre, k, first);
  }

  /** The file pass 2 keeps for a kind never carries that kind's canonical name. */
  lemma WinnerNotCanonical(files: seq<CsvFile>, k: Kind)
    requires k in SniffFolder(files).detected
    ensures ToLower(files[SniffFolder(files).detected[k]].name) != RequiredFilename(k)
  {
    var i := SniffFolder(files).detected[k];
    if ToLower(files[i].name) == RequiredFilename(k) {
      CanonicalNameAssigned(files, i, k);
      assert false;
    }
  }

  /**
    So every kind pass 2 settles yields a "Detected ... by content" warning: the source's
    name check never suppresses one.
   */
  lemma WinnerWarned(files: seq<CsvFile>, k: Kind)
    requires !AllAssigned(ByFilename(files)) && k in SniffFolder(files).detected
    ensures DetectedByContent(k, files[Resolve(files).assignment[k]].name) in Resolve(files).warnings
  {
    var exact, cands, kinds := ByFilename(files), CandidatesOf(files), KindsOf(files);
    ByFilenameIndices(files);
    ResolveWhenOpen(files);
    SniffDetected(files, kinds, exact, cands, k);
    var first := FirstWith(kinds, cands, k).value;
    WinnerNotCanonical(files, k);
    SniffWarnsWinner(files, kinds, exact, cands, first, k);
  }

  /** The first header match of an open kind yields a "Detected" warning unless its name is canonical. */
  lemma SniffWarnsWinner(
    files: seq<CsvFile>, kinds: seq<Option<Kind>>, exact: map<Kind, nat>, cands: seq<nat>, first: nat, k: Kind)
    requires |kinds| == |files| && IndicesBelow(exact, |files|) && AllBelow(cands, |files|) && k !in exact
    requires first < |cands| && kinds[cands[first]] == Some(k)
    requires forall i :: 0 <= i < first ==> kinds[cands[i]] != Some(k)
    requires ToLower(files[cands[first]].name) != RequiredFilename(k)
    ensures DetectedByContent(k, files[cands[first]].name) in Sniff(files, kinds, exact, cands).warnings
  {
    var pre := cands[..first];
    SniffDetected(files, kinds, exact, pre, k);
    assert FirstWith(kinds, pre, k).None? by {
      assert forall i :: 0 <= i < first ==> pre[i] == cands[i];
    }
    SniffSnoc(files, kinds, exact, cands, first);
    WarnedInPrefix(files, kinds, exact, cands, cands[..first + 1],
      DetectedByContent(k, files[cands[first]].name));
  }

  // ------------------------------------------------------------ counting

  /** How many of the candidates have a recognised header. */
  function Classified(kinds: seq<Option<Kind>>, cands: seq<nat>): (n: nat)
    requires AllBelow(cands, |kinds|)
    ensures n <= |cands|
    ensures (forall j :: 0 <= j < |cands| ==> kinds[cands[j]].Some?) ==> n == |cands|
    decreases |cands|
  {
    if |cands| == 0 then 0
    else
      var init := cands[..|cands| - 1];
      Classified(kinds, init) + if kinds[cands[|cands| - 1]].Some? then 1 else 0
  }

  /** Pass 2 issues exactly one warning per candidate whose header it recognises. */
  lemma {:induction false} WarningCount(files: seq<CsvFile>, cands: seq<nat>)
    requires AllBelow(cands, |files|)
    ensures ByFilenameIndicesHold(files)
      && |Sniff(files, KindsOf(files), ByFilename(files), cands).warnings| == Classified(KindsOf(files), cands)
    decreases |cands|
  {
    ByFilenameIndices(files);
    if |cands| > 0 {
      var init := cands[..|cands| - 1];
      WarningCount(files, init);
      var i := cands[|cands| - 1];
      var kind := KindsOf(files)[i];
      if kind.Some? && kind.value !in ByFilename(files) && ToLower(files[i].name) == RequiredFilename(kind.value) {
        CanonicalNameAssigned(files, i, kind.value);
      }
    }
  }

  predicate ByFilenameIndicesHold(files: seq<CsvFile>)
  {
    IndicesBelow(ByFilename(files), |files|)
  }

  // ------------------------------------------------------------ missing kinds

  /** A kind stays unassigned exactly when no file has its name and no candidate's header matches it. */
  lemma MissingExactly(files: seq<CsvFile>, k: Kind)
    ensures k !in Resolve(files).assignment <==>
      k !in ByFilename(files) && forall j :: 0 <= j < |CandidatesOf(files)| ==> KindsOf(files)[CandidatesOf(files)[j]] != Some(k)
  {
    ByFilenameIndices(files);
    AllKindsListed(k);
    if !AllAssigned(ByFilename(files)) {
      SniffDetected(files, KindsOf(files), ByFilename(files), CandidatesOf(files), k);
    }
  }

  // ------------------------------------------------- four renamed files

  /** When every file is a candidate, the candidates are all the positions in order. */
  lemma {:induction false} AllCandidates(files: seq<CsvFile>, used: set<nat>, n: nat)
    requires n <= |files| && forall i :: 0 <= i < n ==> IsCandidate(files, used, i)
    ensures |Candidates(files, used, n)| == n
    ensures forall i :: 0 <= i < n ==> Candidates(files, used, n)[i] == i
    decreases n
  {
    if n > 0 {
      AllCandidates(files, used, n - 1);
      assert IsCandidate(files, used, n - 1);
      var r := Candidates(files, used, n - 1);
      assert Candidates(files, used, n) == r + [n - 1];
      forall i | 0 <= i < n ensures Candidates(files, used, n)[i] == i {
        if i < n - 1 {
          assert (r + [n - 1])[i] == r[i];
        }
      }
    }
  }

  /** No file carries a canonical name, so pass 1 assigns nothing. */
  lemma NoCanonicalNames(files: seq<CsvFile>)
    requires forall i, k :: 0 <= i < |files| ==> ToLower(files[i].name) != RequiredFilename(k)
    ensures ByFilename(files) == map[]
  {
    var index := NameIndex(files);
    forall k ensures RequiredFilename(k) !in index {
    }
  }

  predicate FourRenamed(files: seq<CsvFile>)
  {
    && |files| == 4
    && (forall i, k :: 0 <= i < 4 ==> ToLower(files[i].name) != RequiredFilename(k))
    && (forall i :: 0 <= i < 4 ==> EndsWith(ToLower(files[i].name), ".csv") && KindsOf(files)[i].Some?)
    && (forall i, j :: 0 <= i < j < 4 ==> KindsOf(files)[i] != KindsOf(files)[j])
  }

  lemma FourRenamedSetup(files: seq<CsvFile>)
    requires FourRenamed(files)
    ensures ByFilename(files) == map[] && !AllAssigned(ByFilename(files))
    ensures |CandidatesOf(files)| == 4 && forall i :: 0 <= i < 4 ==> CandidatesOf(files)[i] == i
  {
    NoCanonicalNames(files);
    assert Views !in ByFilename(files);
    assert ByFilename(files).Values == {};
    AllCandidates(files, {}, 4);
  }

  /** In that folder file `i` wins its kind ... */
  lemma RenamedFileAssigned(files: seq<CsvFile>, i: nat)
    requires FourRenamed(files) && i < 4
    ensures KindsOf(files)[i].value in Resolve(files).assignment
    ensures Resolve(files).assignment[KindsOf(files)[i].value] == i
  {
    FourRenamedSetup(files);
    var cands := CandidatesOf(files);
    assert cands[i] == i;
    assert forall j :: 0 <= j < i ==> KindsOf(files)[cands[j]] != KindsOf(files)[i] by {
      assert forall j :: 0 <= j < i ==> cands[j] == j;
    }
    FirstDetectedWins(files, i, KindsOf(files)[i].value);
  }

  /** ... and is reported as detected by content. */
  lemma RenamedFileReported(files: seq<CsvFile>, i: nat)
    requires FourRenamed(files) && i < 4
    ensures DetectedByContent(KindsOf(files)[i].value, files[i].name) in Resolve(files).warnings
  {
    var k := KindsOf(files)[i].value;
    RenamedFileAssigned(files, i);
    FourRenamedSetup(files);
    ResolveWhenOpen(files);
    assert k in SniffFolder(files).detected;
    WinnerWarned(files, k);
  }

  /**
    Four `.csv` files with non-canonical names whose headers show the four kinds: every kind
    is assigned to its file, and the folder yields exactly four warnings, one "Detected ...
    by content" per file.
   */
  lemma FourRenamedFiles(files: seq<CsvFile>)
    requires FourRenamed(files)
    ensures AllAssigned(Resolve(files).assignment)
    ensures |Resolve(files).warnings| == 4
    ensures forall i :: 0 <= i < 4 ==>
      DetectedByContent(KindsOf(files)[i].value, files[i].name) in Resolve(files).warnings
  {
    FourRenamedCount(files);
    FourRenamedAllAssigned(files);
    forall i | 0 <= i < 4
      ensures DetectedByContent(KindsOf(files)[i].value, files[i].name) in Resolve(files).warnings
    {
      RenamedFileReported(files, i);
    }
  }

  lemma FourRenamedAllAssigned(files: seq<CsvFile>)
    requires FourRenamed(files)
    ensures AllAssigned(Resolve(files).assignment)
  {
    var kinds := KindsOf(files);
    forall k ensures k in Resolve(files).assignment {
      FourKindsCovered(kinds[0].value, kinds[1].value, kinds[2].value, kinds[3].value, k);
      if k == kinds[0].value {
        RenamedFileAssigned(files, 0);
      } else if k == kinds[1].value {
        RenamedFileAssigned(files, 1);
      } else if k == kinds[2].value {
        RenamedFileAssigned(files, 2);
      } else {
        RenamedFileAssigned(files, 3);
      }
    }
  }

  lemma FourRenamedCount(files: seq<CsvFile>)
    requires FourRenamed(files)
    ensures |Resolve(files).warnings| == 4
  {
    FourRenamedSetup(files);
    WarningCount(files, CandidatesOf(files));
  }

  /** Four pairwise different kinds are all the kinds there are. */
  lemma FourKindsCovered(a: Kind, b: Kind, c: Kind, d: Kind, k: Kind)
    requires a != b && a != c && a != d && b != c && b != d && c != d
    ensures k == a || k == b || k == c || k == d
  {
  }
}
