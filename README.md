# YouTube channel analytics: CSV ingestion and store aggregation

This project models the data engine of a small YouTube analytics dashboard, with proofs about it.
An operator uploads folders of exported CSV files. There is one folder per channel. Each folder
must supply four kinds of data: views, watch time, subscribers and revenue.

The engine has two halves:

- **Ingestion** (`src/lib/csv.ts`):
  - normalises date cells and number cells;
  - classifies a file by its header;
  - resolves which file of a folder supplies which kind, first by canonical file name and then by header content, and warns about duplicates and renamed files;
  - folds the rows of the four files into one record per day;
  - processes a whole upload folder by folder, so that a failing folder only adds an error message.
- **Store helpers** (`src/lib/store.ts`):
  - merge newly uploaded channels over stored ones, per day and last write wins;
  - join the days of several channels into one series, summing each field;
  - sum a series into totals and compute revenue per thousand views (RPM);
  - interpret the dashboard's date-filter strings (`7d`, `28d`, `90d`, `365d`, `all`, `year:Y`, `month:Y-M`, `range:s..e`).

The modules follow the program's structure:

| module | file | what it holds |
|---|---|---|
| `Wrappers` | wrappers.dfy | `Option` |
| `Text` | text.dfy | the JavaScript string operations the engine uses: character-by-character order, `includes`, `startsWith`, `split`/`join`, `trim`, `toLowerCase`, decimal digits |
| `Types` | types.dfy | `DailyMetrics`, `ChannelData`, `UploadResult`, the four kinds and their canonical file names, parsed rows and the `a \|\| b \|\| ''` column chains |
| `Keyed` | keyed.dfy | string-keyed maps turned into sequences sorted by key: the `Array.from(map.values()).sort(...)` idiom |
| `Normalize` | normalize.dfy | `normalizeDate`, `parseNumber` |
| `Detect` | detect.dfy | `detectCsvKind` |
| `Resolver`, `ResolverFacts` | resolver.dfy, resolver_facts.dfy | the two resolution passes of `parseChannelFolderWithWarnings` and the missing-file check, then what they guarantee |
| `Extract` | extract.dfy | the four row loops and `upsert` |
| `Folder` | folder.dfy | `parseChannelFolderWithWarnings` as a whole |
| `Batch` | batch.dfy | `parseUploadDirectoryEntries` |
| `Merge` | merge.dfy | `mergeChannels` |
| `Aggregate` | aggregate.dfy | `combineDailyAcrossChannels`, `computeTotals`, `computeRpm` |
| `Calendar` | calendar.dfy | Gregorian day arithmetic behind JavaScript's `Date` constructor and `setDate`, plus `Number`/`String`/`padStart` on the integers the filters handle |
| `DateFilter` | datefilter.dfy | `filterDailyByDateRange` |

The source's loops that update local maps and arrays are methods with `while` loops. Examples
are the grouping of uploaded files, the two resolver passes, the row loops, the channel merge and
the cross-channel sum. Each method's `ensures` ties its result to a function that states what the
loop computes, and lemmas prove the source's promises about those functions. The source defines no
classes, so the model has none. The expression-only code (`normalizeDate`, `parseNumber`,
`detectCsvKind`, `computeRpm`, `filterDailyByDateRange`) is modelled as functions.

Modelling choices:

- A CSV row is a sequence of (key, value) cells in header order. The cells are already trimmed, and
  their keys are lower-cased. A file is a name with its rows.
- A file's identity, as used by the resolver's `Map`s and `Set`, is its position in the folder's
  file list.
- Metric values are mathematical reals.
- Strings are ordered character by character, by Unicode scalar value (`Text.Less`). On dates,
  which are `YYYY-MM-DD` strings of digits and `-`, this agrees with JavaScript's `<=` and with
  `localeCompare`. Channel names are ordered the same way, which is not what `localeCompare` does
  for every name (see "## Left out").
- `parseISO` followed by `isValid` is a parameter `isoValid: string -> bool`, applied to the
  trimmed cell.

Some of the code's behaviour is not what a reader would expect, and the model follows the code:

- **Renamed files all produce warnings.** Take a folder of four files `a.csv` … `d.csv` whose
  headers name the four kinds. One might expect no warnings for it, but the code gives four
  "Detected … by content" warnings, one per file, because no header-detected winner can carry its
  canonical name (`ResolverFacts.FourRenamedFiles`, `ResolverFacts.WinnerNotCanonical`). Adding a
  second revenue file to that folder gives a "Multiple files" warning, not a "Duplicate" warning
  (`ResolverFacts.LaterDetectedIgnored`).
- **`parseNumber` drops every second dot.** One might expect it to keep only the first decimal
  point, but the code's `/(\..*?)\./g` deletes the second dot of each pair. So `"1.234.56"`
  reads as 1.23456, but `"1.2.3.4"` keeps two dots and reads as 0 (`Normalize.CollapseDots`,
  `Normalize.ThreeDotsRejected`).
- **A malformed `range:` filter is not fail-open.** One might expect a malformed filter to return
  the whole series. `range:` without `..` compares every date against `undefined` and keeps
  nothing (`DateFilter.RangeWithoutEnd`).
- **Years 0 to 99 in `month:` filters.** The printed bounds use the year as given. The last day of
  the month comes from `Date.UTC`, which reads a year from 0 to 99 as 1900 to 1999. The model keeps
  this rule (`Calendar.FullYear`).
- **Dates before the year 1000 fall out of their own `7d` … `365d` window.** `formatLocal` prints
  the window's start year without padding. For a last date such as `0999-03-10` the start bound
  `999-03-04` sorts above that date, and so above every record of a date-sorted series, and
  nothing is kept (`DateFilter.PaddedYearKeepsNothing`).
  Years 0 to 99 behave the same way, because `new Date` reads them as 1900 to 1999.

## Model

| member | source | states |
|---|---|---|
| Normalize.NormalizeDate | src/lib/csv.ts:8-14 | a cell is rejected exactly when its trimmed text is empty or not a valid ISO date; otherwise the result is the first ten characters of the trimmed text (or all of it when shorter) |
| Normalize.TimeOfDayDropped | src/lib/csv.ts:8-14 | a date followed by a time of day normalises to the same key as the bare date |
| Normalize.Clean | src/lib/csv.ts:18 | the first replacement leaves only digits, dots and minus signs |
| Normalize.CleanAppend | src/lib/csv.ts:18 | cleaning works character by character: cleaning a concatenation concatenates the cleaned parts |
| Normalize.CollapseDots | src/lib/csv.ts:18 | the second replacement removes only dots, keeps half of them rounded up (one dot of every pair), and leaves a string without dots unchanged |
| Normalize.CollapseDotsPairs | src/lib/csv.ts:18 | which dots survive: of each pair of dots the first is kept and the second removed, whatever follows the pair; a last unpaired dot is kept |
| Normalize.DropPairedDotsCount | src/lib/csv.ts:18 | the left-to-right scan behind the second replacement removes dots and no other character, keeps half of the dots (rounded up when no match is open), and changes nothing in a string without dots |
| Normalize.DropPairedDotsFirstDot | src/lib/csv.ts:18 | the scan step by step: it copies the text up to the next dot, keeps that dot when no match is open and removes it when one is, then goes on with the match flag flipped |
| Normalize.ParseNumberOfNat | src/lib/csv.ts:16-22 | the decimal text of a natural number reads back as that number |
| Normalize.ParseNumberOfDecimal | src/lib/csv.ts:16-22 | `whole.frac` with digit runs reads as whole + frac / 10^len(frac) |
| Normalize.ParseNumberSkipsNoise | src/lib/csv.ts:16-22 | characters other than digits, dots and minus signs in front of or after a cell's number do not change it |
| Normalize.ParseNumberCurrency | src/lib/csv.ts:16-22 | a currency cell with a thousands separator, `$1,234.56`, reads as 1234.56 |
| Normalize.ParseNumberSecondDotDropped | src/lib/csv.ts:16-22 | `1.234.56` reads as 1.23456 |
| Normalize.TwoDotsCollapse | src/lib/csv.ts:16-22 | any three digit runs joined by two dots read as the first run, a point, and the other two runs together |
| Normalize.ParseNumberTwoDotsLeft | src/lib/csv.ts:16-22 | `1.2.3.4` keeps two dots after the collapse, is not a finite number, and reads as 0 |
| Normalize.ThreeDotsRejected | src/lib/csv.ts:16-22 | any four digit runs joined by three dots read as 0, for the same reason |
| Normalize.ParseNumberEmpty | src/lib/csv.ts:16-22 | worked examples: the empty cell, `abc` and a lone `-` read as 0 |
| Normalize.ParseNumberNoDigits | src/lib/csv.ts:16-22 | every cell without a digit reads as 0, whatever dots, minus signs or other text it holds |
| Detect.DetectCsvKindMeaning | src/lib/csv.ts:73-88 | the result in each of the four priority cases, as an if-and-only-if: revenue when a key mentions `revenue`; else watch time when the keys mention `watch` and `minute` or `hour`; else subscribers for `subs` or `subscriber`; else views for `view` |
| Detect.NoRowsUndetected | src/lib/csv.ts:75-76 | a file with no data rows has no keys and is not classified |
| Detect.ViewsWordContainsView | src/lib/csv.ts:86 | the exact-key test for `views` adds nothing to the `view` substring test |
| Detect.SubscriberContainsSubs | src/lib/csv.ts:85 | the `subscriber` test adds nothing to the `subs` test |
| Detect.UnrelatedHeaderUndetected | src/lib/csv.ts:73-88 | a header whose keys mention none of `revenue`, `watch`, `subs`, `view` is not classified |
| Text.JoinedContains | src/lib/csv.ts:77-79 | for a word without spaces, searching the space-joined keys finds it exactly when some single key contains it |
| Types.FirstFilled | src/lib/csv.ts:174 | an `a \|\| b \|\| ''` chain yields the first present, non-empty column in the listed order (every column listed before it is absent or empty), and is empty exactly when every listed column is absent or empty |
| Types.FirstKeyContaining | src/lib/csv.ts:201 | `keys.find(...)` returns the first key in header order that contains every fragment (every earlier key lacks one), or none when no key does |
| Resolver.NameIndex | src/lib/csv.ts:95 | each lower-cased file name maps to a file with that name, and to the last such file |
| Resolver.ExactAmong | src/lib/csv.ts:99-103 | a kind is assigned in pass 1 exactly when its canonical name is among the lower-cased file names, and it gets that file |
| Resolver.CanonicalNameAssigned | src/lib/csv.ts:99-103 | a file named like a kind's canonical file (in any case) fixes that kind in pass 1 |
| Resolver.Candidates | src/lib/csv.ts:108-109 | the pass-2 candidates are exactly the files pass 1 did not take whose name ends in `.csv`, in folder order |
| Resolver.MissingKinds | src/lib/csv.ts:142 | the missing kinds are exactly the unassigned ones, in the order views, watch time, subscribers, revenue, and there are none exactly when all four are assigned |
| Resolver.Message | src/lib/csv.ts:119-129 | every warning's text quotes the file it is about |
| Resolver.MissingMessage | src/lib/csv.ts:144-146 | the folder error starts with `Missing file(s) in <folder>: ` |
| Resolver.IndexNames | src/lib/csv.ts:95 | the loop building `lowerNameToFile` computes the name index |
| Resolver.AssignByFilename | src/lib/csv.ts:99-103 | the pass-1 loop computes the exact-name assignment over all four kinds |
| Resolver.CollectCandidates | src/lib/csv.ts:108-109 | the filter loop computes the candidates |
| Resolver.SniffCandidates | src/lib/csv.ts:112-134 | the header loop ends in the state of the step-by-step definition of pass 2 (detected map and warnings) |
| Resolver.ResolveFolder | src/lib/csv.ts:94-139 | both passes together compute the folder's assignment and warnings |
| ResolverFacts.SniffDetected | src/lib/csv.ts:112-130 | pass 2 detects a kind exactly when pass 1 left it open and some candidate's header says it, and it keeps the first such candidate |
| ResolverFacts.ExactAssignmentKept | src/lib/csv.ts:117-120 | a kind fixed by file name keeps that file, whatever other headers say |
| ResolverFacts.DuplicateWarned | src/lib/csv.ts:117-120 | a header match for a kind fixed by name yields a `Duplicate` warning naming both files |
| ResolverFacts.FirstDetectedWins | src/lib/csv.ts:122-138 | among the header matches for an open kind, the first candidate is assigned |
| ResolverFacts.LaterDetectedIgnored | src/lib/csv.ts:122-125 | every later match for that kind yields a `Multiple files` warning naming the winner and the ignored file |
| ResolverFacts.WinnerNotCanonical | src/lib/csv.ts:99-128 | a file chosen by header never carries its kind's canonical name, so the name comparison at line 128 always succeeds |
| ResolverFacts.WinnerWarned | src/lib/csv.ts:127-130 | each file chosen by header yields a `Detected … by content` warning |
| ResolverFacts.WarningCount | src/lib/csv.ts:112-130 | pass 2 issues exactly one warning per candidate whose header it classifies |
| ResolverFacts.MissingExactly | src/lib/csv.ts:99-142 | a kind stays unassigned exactly when no file has its canonical name and no candidate's header matches it |
| ResolverFacts.FourRenamedFiles | src/lib/csv.ts:99-139 | four renamed files with one kind each are all assigned and give exactly four `Detected` warnings, one per file |
| Extract.DayColumnOnlyForViews | src/lib/csv.ts:173-228 | a row dated only by a `day` column counts in a views file and is skipped in the other three |
| Extract.SubsNetMeaning | src/lib/csv.ts:215-221 | the subscriber value is the net column when it reads non-zero, and otherwise gained minus lost |
| Extract.EmptyMinuteColumnBlocksHours | src/lib/csv.ts:190-205 | for any row: when a minutes column is present but every minutes column is empty, watch time is 0, whatever hours column stands beside it |
| Extract.HoursConverted | src/lib/csv.ts:199-205 | for any row without a minutes column: the first column in header order whose key holds both `watch` and `hour` is read, and its value × 60 is the watch time |
| Extract.NoWatchColumns | src/lib/csv.ts:188-205 | a row with neither a minutes column nor a key holding both `watch` and `hour` gives watch time 0 |
| Extract.FirstKeyAt | src/lib/csv.ts:201-203 | `find` picks the first key in header order holding every fragment, and `r[key]` reads that column's value |
| Extract.RevenueFromOnlyRevenueColumn | src/lib/csv.ts:232-239 | when one column mentions revenue, its value is the revenue, whether it is one of the exact columns or found by the fallback |
| Extract.RevenueFallbackColumn | src/lib/csv.ts:232-238 | when no exact revenue column is filled, the first column in header order whose key mentions `revenue` is read |
| Extract.SetField | src/lib/csv.ts:179-242 | each updater sets its kind's field and leaves the date and the other three fields unchanged |
| Extract.LastForMeaning | src/lib/csv.ts:164-171 | the value a loop leaves for a date is that of an entry with that date after which no entry has it, and there is none exactly when no entry has it |
| Extract.UpsertAllAt | src/lib/csv.ts:164-171 | after a row loop, a date is present exactly when it was before or some row carried it, and its record is the old one (or a zero record) with the field set to the last such row's value |
| Extract.UpsertAllKeyed | src/lib/csv.ts:164-171 | the loops file every record under its own date |
| Extract.LastValueMeaning | src/lib/csv.ts:173-243 | per kind and date, the value kept is that of the last row carrying that date, and there is none exactly when no row carries it |
| Extract.DailyMapAt | src/lib/csv.ts:162-243 | after the four loops, a date is present exactly when some file has a row with that date; its record holds each kind's last value for that date, and 0 for a kind with no such row |
| Extract.DailyMapKeyed | src/lib/csv.ts:162-243 | every record of the map is filed under its own date |
| Extract.UpsertRows | src/lib/csv.ts:164-243 | a row loop computes the fold of `upsert` over its rows in file order, skipping undated rows |
| Folder.BuildDaily | src/lib/csv.ts:157-245 | the four loops and the sort produce the date map's records sorted by date |
| Folder.ParseChannelFolderWithWarnings | src/lib/csv.ts:90-249 | the method computes the folder's outcome as defined by `FolderOutcome`: the thrown error's message or the channel with its warnings |
| Folder.FailsIffMissing | src/lib/csv.ts:141-147 | a folder fails exactly when some kind is left unassigned, and then its message starts with `Missing file(s) in <folder>: ` |
| Folder.MissingNamesListed | src/lib/csv.ts:141-147 | the error lists the canonical names of exactly the unassigned kinds, comma-separated, in the order views, watch time, subscribers, revenue |
| Folder.ParsedChannel | src/lib/csv.ts:245-248 | a parsed channel is named after its folder, its days are strictly ascending by date, and it carries one warning text per resolver warning, each quoting its file |
| Folder.ParsedDay | src/lib/csv.ts:162-246 | a parsed channel holds a day exactly when some assigned file has a row with that date; its record holds each kind's last value, with 0 for fields never written |
| Batch.StripCsvSuffix | src/lib/csv.ts:46 | a trailing `.csv` in any case is removed, and any other name is left as it is |
| Batch.FolderOfNested | src/lib/csv.ts:44-46 | with a `/` in the relative path, the folder is the text before the first `/` |
| Batch.FolderOfLoose | src/lib/csv.ts:44-46 | without a `/`, the folder is the file name without `.csv` |
| Batch.GroupsMeaning | src/lib/csv.ts:41-49 | the folders are distinct and in first-seen order, and each folder's group is exactly its files in upload order |
| Batch.UploadGroups | src/lib/csv.ts:41-49 | the folders of an upload are exactly the folders of its entries, each once |
| Batch.GroupByFolder | src/lib/csv.ts:41-49 | the grouping loop computes the folder order and the groups |
| Batch.Prefixed | src/lib/csv.ts:59 | each warning is prefixed by `<folder>: ` and otherwise unchanged |
| Batch.CollectFolders | src/lib/csv.ts:55-64 | the per-folder loop adds each folder's channel and prefixed warnings, or its error message |
| Batch.ParseUploadDirectoryEntries | src/lib/csv.ts:39-67 | the method computes the upload's result as defined by `UploadOutcome` |
| Batch.CollectAppend | src/lib/csv.ts:55-64 | the batch result concatenates what each folder contributes by itself |
| Batch.FailingFolderIsolated | src/lib/csv.ts:56-63 | a failing folder adds only its message to the errors; the channels and warnings are those of the batch without it |
| Batch.EachFolderAccounted | src/lib/csv.ts:55-64 | every folder yields exactly one channel or exactly one error |
| Batch.ChannelsNamedByFolder | src/lib/csv.ts:55-64 | channels carry distinct folder names, and every warning starts with the name of a folder of the batch |
| Batch.UploadAccounted | src/lib/csv.ts:39-67 | over a whole upload there is one result per folder, and channel names are distinct folder names of uploaded entries |
| Merge.MergeDays | src/lib/store.ts:44-48 | the day-merge loop computes `MergeDaily`, the overlay sorted by date |
| Merge.MergeChannels | src/lib/store.ts:35-52 | the method computes `Merged`, the merge defined channel by channel |
| Merge.MergeDailyMeaning | src/lib/store.ts:44-48 | the merged days are strictly ascending by date and indexed as the stored days overlaid with the incoming ones; the dates are exactly the union |
| Merge.IncomingDayWins | src/lib/store.ts:45-47 | an incoming day replaces the stored record of its date wholesale |
| Merge.StoredDayKept | src/lib/store.ts:44-48 | a stored day whose date no incoming day carries is kept as it was |
| Merge.MergedNames | src/lib/store.ts:36-51 | the result is strictly ascending by channel name, and its names are exactly the stored and incoming names |
| Merge.ExistingOnlyUnchanged | src/lib/store.ts:37-51 | a channel only in `existing` is returned unchanged |
| Merge.NewChannelInserted | src/lib/store.ts:39-42 | an incoming channel with a new name is inserted as given |
| Merge.MatchedChannelMerged | src/lib/store.ts:44-49 | a channel on both sides is returned with its days merged, incoming days winning |
| Merge.MergeDailyTwice | src/lib/store.ts:44-48 | overlaying the same incoming days twice gives the same days as once |
| Merge.MergeIdempotent | src/lib/store.ts:35-52 | merging the same incoming channels a second time changes nothing, when their names are distinct and each day series is sorted with unique dates |
| Aggregate.ComputeTotals | src/lib/store.ts:69-80 | the reducer computes the field-by-field sum of the series |
| Aggregate.TotalsOf | src/lib/store.ts:69-80 | an empty series totals to all zeros |
| Aggregate.TotalsAppend | src/lib/store.ts:69-80 | totals distribute over concatenation |
| Aggregate.CombineDailyAcrossChannels | src/lib/store.ts:54-67 | the nested loops and the sort compute `Combined`, the date map sorted by date |
| Aggregate.CombineMapAt | src/lib/store.ts:56-65 | a date is in the date map exactly when some record has it, and its entry is the sum of all records with that date |
| Aggregate.CombinedMeaning | src/lib/store.ts:54-67 | the combined series is strictly ascending by date, its dates are exactly the union of all channels' dates, and each record sums that date's records of every channel |
| Aggregate.CombineMapConserves | src/lib/store.ts:56-66 | the values of the date map total to the same as the records folded into it |
| Aggregate.CombinedTotals | src/lib/store.ts:54-80 | the totals of the combined series equal the sum of the channels' own totals |
| Aggregate.RpmRecoversRevenue | src/lib/store.ts:82-85 | with non-zero views, RPM times the views in thousands gives the revenue back |
| Aggregate.RpmNoViews | src/lib/store.ts:82-85 | RPM is 0 when there are no views, whatever the revenue |
| Aggregate.RpmExamples | src/lib/store.ts:82-85 | worked examples: $100 over 1000 views gives 100, and $5 over no views gives 0 |
| DateFilter.FilterMembers | src/lib/store.ts:110 | `filter` keeps exactly the elements that pass the test |
| DateFilter.FilterSubsequence | src/lib/store.ts:110 | `filter` keeps its input's order |
| DateFilter.FilterSorted | src/lib/store.ts:110 | filtering a series strictly ascending by date leaves it strictly ascending |
| DateFilter.FilterShape | src/lib/store.ts:87-141 | every filter gives an order-preserving subsequence of its input, keeps a sorted series sorted and maps the empty series to itself; `all` and an unrecognised filter return the input unchanged |
| DateFilter.Unrecognised | src/lib/store.ts:87-141 | `all` and a filter without a known form select the whole series |
| DateFilter.InBetween | src/lib/store.ts:110 | a window keeps exactly the records whose date lies between its bounds, inclusive |
| DateFilter.ParseFormatted | src/lib/store.ts:91-100 | parsing a formatted day gives that day back, for years from 100 on |
| DateFilter.RecentWindow | src/lib/store.ts:102-115 | `7d`, `28d`, `90d` and `365d` keep exactly the records from N - 1 days before the last record's date through that date, when that date is written as `formatLocal` writes it |
| DateFilter.ParsePaddedYear | src/lib/store.ts:97-100 | `parseLocal` reads a year written with a leading zero as the same day |
| DateFilter.PaddedYearKeepsNothing | src/lib/store.ts:102-112 | `7d` on a record dated `0999-03-10` keeps nothing, not even that record: the start bound prints as `999-03-04`, which sorts above it |
| DateFilter.RecentBounds | src/lib/store.ts:105-110 | the window's start is the end day moved back N - 1 calendar days, across month and year boundaries |
| DateFilter.YearFilterWindow | src/lib/store.ts:117-122 | `year:Y` keeps exactly the records dated `Y-01-01` through `Y-12-31` |
| DateFilter.MonthWindowOf | src/lib/store.ts:125-131 | `Y-MM` gives the bounds from day 01 to the month's Gregorian length |
| DateFilter.MonthFilterWindow | src/lib/store.ts:123-133 | `month:Y-MM` keeps exactly the records from day 01 through the last day of that month, leap years included |
| DateFilter.RangeFilterWindow | src/lib/store.ts:134-139 | `range:s..e` keeps exactly the records dated `s` through `e` |
| DateFilter.RangeWithoutEnd | src/lib/store.ts:134-139 | `range:s` without `..` keeps nothing |
| Calendar.SetDateMoves | src/lib/store.ts:107-108 | `setDate(getDate() + k)` moves a day by exactly k calendar days, for any k |
| Calendar.LastDayOfMonth | src/lib/store.ts:130 | day 0 of the following month is the month's last day |
| Calendar.MakeDateOfCivil | src/lib/store.ts:99 | the `Date` constructor given an existing day's numbers gives that day |
| Calendar.NumberOfNat | src/lib/store.ts:118 | `Number(String(n))` is n |
| Calendar.PaddedNumber | src/lib/store.ts:90 | a two-digit padded day or month reads back as itself |
| Keyed.SortKeys | src/lib/store.ts:51 | sorting a set of keys gives them strictly ascending, each once |
| Keyed.SortedUnique | src/lib/store.ts:51 | a strictly ascending sequence is determined by its members, so the sort's result does not depend on map order |
| Keyed.InsertKey | src/lib/store.ts:51 | inserting a new key keeps the keys strictly ascending and adds exactly that key |
| Keyed.SortedKeys | src/lib/store.ts:51 | the insertion loop computes the sorted keys |
| Keyed.SortedValues | src/lib/store.ts:51 | `Array.from(map.values()).sort(...)` computes the values in key order |
| Keyed.Index | src/lib/store.ts:44 | the indexing loop computes the map from key to the last element with that key |
| Keyed.IndexBy | src/lib/store.ts:44 | the index holds each key of the sequence, files each element under its own key, and holds only elements of the sequence |
| Keyed.SortIndexOfSorted | src/lib/store.ts:44-48 | indexing a strictly sorted sequence and sorting it again gives the sequence back |
| Keyed.IndexOfSortByKey | src/lib/store.ts:48 | sorting a keyed map and indexing the result gives the map back |
| Keyed.SortByKeyContents | src/lib/store.ts:48 | the sorted values are strictly ascending by key, carry exactly the map's keys, and each is the map's entry for its key; the same sort by key is used at lines 51 and 66 and in csv.ts at line 245 (at line 51 the keys are channel names, ordered by character rather than by locale) |
| Text.LessTotal | src/lib/store.ts:51 | any two different strings are ordered one way or the other |
| Text.LessTransitive | src/lib/store.ts:51 | the string order is transitive |
| Text.LessIrreflexive | src/lib/store.ts:51 | no string is below itself |
| Text.Split | src/lib/store.ts:98 | `split` always yields at least one part |
| Text.JoinSplit | src/lib/store.ts:98 | joining the parts of a split with the separator gives the string back |
| Text.Trim | src/lib/csv.ts:9 | the trimmed text has no white space at either end, and is empty exactly when the text is all white space |
| Text.ToLower | src/lib/csv.ts:95 | lower-casing keeps the length and maps each character on its own |
| Text.IndexOf | src/lib/csv.ts:45 | the result is the first position where the fragment occurs |

## Left out

- File reading: `File.text()`, the `await`s and `Promise.all`. The model takes each file with its rows already read. A read failure in the header loop is swallowed by the source; the model has no read failures, so that branch is not modelled.
- CSV tokenising (`parseCsv` with `Papa.parse`): the model starts from parsed rows whose keys are trimmed and lower-cased and whose values are trimmed. Rows with a repeated header key are outside the model.
- `parseISO` and `isValid` from date-fns: a parameter `isoValid` that decides which trimmed cells are valid dates.
- `parseChannelFolder`, the thin wrapper that drops the warnings, is not modelled separately.
- A folder can throw only the missing-files error in the model; no other exception of the source is reachable once reads cannot fail.
- The persistence functions `loadStored`, `saveStored`, `clearStored` and `deleteChannel` are network requests and are not part of this model.
- Floating point: sums, `hours * 60` and RPM are exact over the reals. Rounding, overflow to `Infinity`, and `-0` are not modelled.
- Normalize.ParseNumber: JavaScript's `Number` is modelled for the strings cleaning can leave: an optional minus sign and then digits with at most one dot. Digit strings so long that they overflow to `Infinity` are read as their exact value.
- Calendar.NumberOf: `Number` on a filter field is modelled for empty text (0) and optionally signed digit runs. Any other text is `NaN`, so decimals, exponents and hexadecimal in a filter are outside the model. Digit runs are read exactly: `Number` rounds them past 2^53, and `String` prints numbers from 10^21 on in exponent form, so a bound like `year:12345678901234567890` prints differently in the source. The `Date.UTC` range limit in the `month:` branch is not modelled either.
- Merge.MergedNames, Merge.MergeChannels: channels are ordered by comparing their names character by character. `localeCompare` collates instead, so names that mix upper and lower case or contain `_`, `[` or `` ` `` can come out in a different order: `localeCompare` puts `alpha` before `Zeta` and `a_b` before `a1`, and the model puts them after. Keyed.SortByKeyContents has the same limit where it sorts channels by name. On dates the two orders agree.
- Text.Less: compares Unicode scalar values, while JavaScript's `<=` compares UTF-16 code units. The two differ only between a character above U+FFFF and one from U+E000 to U+FFFF, and neither occurs in a date.
- `toLowerCase` is modelled for ASCII letters only.
- Local time: `lastNDays` uses local `Date` objects, and its window is modelled as pure Gregorian day arithmetic, without daylight-saving shifts or the `Date` range limit.
- DateFilter.RecentWindow: assumes the last record's date is a real day written as `formatLocal` writes it, with a year from 100 on and no leading zeros. Among `YYYY-MM-DD` dates that means a year from 1000 on. With an earlier year the window does not hold its own last record: a year from 0 to 99 reads as 1900 to 1999, and a zero-padded year from 0100 to 0999 prints back without its zero. Either way the start bound sorts above the last date and the filter keeps nothing (DateFilter.PaddedYearKeepsNothing shows one such date).
- The unused `today` in `filterDailyByDateRange` is not modelled.
- Merge.MergeIdempotent: stated for incoming channels with distinct names and sorted days. With repeated names the later channel's merge can differ on a second pass.
- Merge.IncomingDayWins, Merge.StoredDayKept, Merge.ExistingOnlyUnchanged, Merge.NewChannelInserted and Merge.MatchedChannelMerged: stated for a day or channel that is alone under its date or name in its own list. With repeats, `Map` keeps the last one, which Merge.MergeDailyMeaning and Merge.MergedNames describe.
