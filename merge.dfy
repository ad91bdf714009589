/**
  `mergeChannels` (src/lib/store.ts): folds a newly uploaded batch into the stored channels.
  Channels are matched by name; a matched channel's days are merged by date with the incoming
  record winning, and the result is sorted by channel name.
 */
module Merge {
  import opened Wrappers
  import opened Types
  import opened Keyed

  /** `new Map(prev.daily.map(...))` overlaid with `inc.daily`, then sorted by date. */
  ghost function MergeDaily(prev: seq<DailyMetrics>, inc: seq<DailyMetrics>): seq<DailyMetrics>
  {
    SortByKey(IndexBy(prev, DateOf) + IndexBy(inc, DateOf))
  }

  /** `map.get(name)`. */
  function Lookup(m: map<string, ChannelData>, name: string): Option<ChannelData>
  {
    if name in m then Some(m[name]) else None
  }

  /** The channel stored for `inc`'s name once `inc` is merged over `prev`. */
  ghost function MergeOne(prev: Option<ChannelData>, inc: ChannelData): ChannelData
  {
    match prev
    case None => inc
    case Some(p) => ChannelData(inc.channelName, MergeDaily(p.daily, inc.daily))
  }

  /** One iteration of the loop over `incoming`. */
  ghost function MergeInto(m: map<string, ChannelData>, inc: ChannelData): map<string, ChannelData>
  {
    m[inc.channelName := MergeOne(Lookup(m, inc.channelName), inc)]
  }

  /** The whole loop over `incoming`, in order. */
  ghost function MergeAll(m: map<string, ChannelData>, incoming: seq<ChannelData>): map<string, ChannelData>
    decreases |incoming|
  {
    if |incoming| == 0 then m
    else MergeInto(MergeAll(m, incoming[..|incoming| - 1]), incoming[|incoming| - 1])
  }

  /** What `mergeChannels(existing, incoming)` returns. */
  ghost function Merged(existing: seq<ChannelData>, incoming: seq<ChannelData>): seq<ChannelData>
  {
    SortByKey(MergeAll(IndexBy(existing, NameOf), incoming))
  }

  // --------------------------------------------------------------- methods

  /** The per-channel day merge: index the stored days, overwrite with the incoming ones, sort. */
  method MergeDays(prev: seq<DailyMetrics>, inc: seq<DailyMetrics>) returns (mergedDaily: seq<DailyMetrics>)
    ensures mergedDaily == MergeDaily(prev, inc)
  {
    var byDate := Index(prev, DateOf);
    var j := 0;
    while j < |inc|
      invariant 0 <= j <= |inc|
      invariant byDate == IndexBy(prev, DateOf) + IndexBy(inc[..j], DateOf)
    {
      OverlayStep(prev, inc, j);
      byDate := byDate[inc[j].date := inc[j]];
      j := j + 1;
    }
    assert inc[..|inc|] == inc;
    mergedDaily := SortedValues(byDate);
  }

  lemma OverlayStep(prev: seq<DailyMetrics>, inc: seq<DailyMetrics>, j: int)
    requires 0 <= j < |inc|
    ensures IndexBy(prev, DateOf) + IndexBy(inc[..j + 1], DateOf)
      == (IndexBy(prev, DateOf) + IndexBy(inc[..j], DateOf))[inc[j].date := inc[j]]
  {
    assert inc[..j + 1][..j] == inc[..j];
  }

  /** The source's function: index the stored channels, merge each incoming one, sort by name. */
  method MergeChannels(existing: seq<ChannelData>, incoming: seq<ChannelData>) returns (result: seq<ChannelData>)
    ensures result == Merged(existing, incoming)
  {
    var m := Index(existing, NameOf);
    ghost var start := m;
    var i := 0;
    while i < |incoming|
      invariant 0 <= i <= |incoming|
      invariant m == MergeAll(start, incoming[..i])
    {
      assert incoming[..i + 1][..i] == incoming[..i];
      var inc := incoming[i];
      if inc.channelName !in m {
        m := m[inc.channelName := inc];
      } else {
        var prev := m[inc.channelName];
        var mergedDaily := MergeDays(prev.daily, inc.daily);
        m := m[inc.channelName := ChannelData(inc.channelName, mergedDaily)];
      }
      i := i + 1;
    }
    assert incoming[..|incoming|] == incoming;
    result := SortedValues(m);
  }

  // ------------------------------------------------------------ day merge

  lemma UnionKeyed(a: map<string, DailyMetrics>, b: map<string, DailyMetrics>)
    requires KeyedBy(a, DateOf) && KeyedBy(b, DateOf)
    ensures KeyedBy(a + b, DateOf)
  {
  }

  /**
    A merged day series is strictly ascending by date, holds exactly the dates of either side,
    and indexed by date it is the stored index overlaid with the incoming one.
   */
  lemma MergeDailyMeaning(prev: seq<DailyMetrics>, inc: seq<DailyMetrics>)
    ensures SortedBy(MergeDaily(prev, inc), DateOf)
    ensures IndexBy(MergeDaily(prev, inc), DateOf) == IndexBy(prev, DateOf) + IndexBy(inc, DateOf)
    ensures forall date :: date in KeysOf(MergeDaily(prev, inc), DateOf) <==>
      date in KeysOf(prev, DateOf) || date in KeysOf(inc, DateOf)
  {
    UnionKeyed(IndexBy(prev, DateOf), IndexBy(inc, DateOf));
    IndexOfSortByKey(IndexBy(prev, DateOf) + IndexBy(inc, DateOf), DateOf);
  }

  /** An incoming day replaces the stored record of its date wholesale. */
  lemma IncomingDayWins(prev: seq<DailyMetrics>, inc: seq<DailyMetrics>, i: int)
    requires 0 <= i < |inc| && forall j :: 0 <= j < |inc| && inc[j].date == inc[i].date ==> j == i
    ensures inc[i] in MergeDaily(prev, inc)
  {
    var m := IndexBy(prev, DateOf) + IndexBy(inc, DateOf);
    IndexByUnique(inc, DateOf, i);
    UnionKeyed(IndexBy(prev, DateOf), IndexBy(inc, DateOf));
    ValueInSortByKey(m, DateOf, inc[i].date);
  }

  /** A stored day whose date no incoming day carries is kept as it was. */
  lemma StoredDayKept(prev: seq<DailyMetrics>, inc: seq<DailyMetrics>, i: int)
    requires 0 <= i < |prev| && forall j :: 0 <= j < |prev| && prev[j].date == prev[i].date ==> j == i
    requires prev[i].date !in KeysOf(inc, DateOf)
    ensures prev[i] in MergeDaily(prev, inc)
  {
    var m := IndexBy(prev, DateOf) + IndexBy(inc, DateOf);
    IndexByUnique(prev, DateOf, i);
    UnionKeyed(IndexBy(prev, DateOf), IndexBy(inc, DateOf));
    ValueInSortByKey(m, DateOf, prev[i].date);
  }

  // ------------------------------------------------------- channel merge

  /** Merging keeps every channel under its own name and adds the incoming names. */
  lemma {:induction false} MergeAllKeys(m: map<string, ChannelData>, incoming: seq<ChannelData>)
    requires KeyedBy(m, NameOf)
    ensures KeyedBy(MergeAll(m, incoming), NameOf)
    ensures forall n :: n in MergeAll(m, incoming) <==> n in m || n in KeysOf(incoming, NameOf)
    decreases |incoming|
  {
    if |incoming| > 0 {
      var init := incoming[..|incoming| - 1];
      MergeAllKeys(m, init);
      KeysOfSnoc(incoming, NameOf);
    }
  }

  /** A name no incoming channel carries keeps what it had. */
  lemma {:induction false} MergeAllOther(m: map<string, ChannelData>, incoming: seq<ChannelData>, n: string)
    requires n !in KeysOf(incoming, NameOf)
    ensures Lookup(MergeAll(m, incoming), n) == Lookup(m, n)
    decreases |incoming|
  {
    if |incoming| > 0 {
      var init := incoming[..|incoming| - 1];
      KeysOfSnoc(incoming, NameOf);
      MergeAllOther(m, init, n);
    }
  }

  /** An incoming channel whose name no other incoming channel carries is merged once. */
  lemma {:induction false} MergeAllAt(m: map<string, ChannelData>, incoming: seq<ChannelData>, j: int)
    requires 0 <= j < |incoming|
    requires forall k :: 0 <= k < |incoming| && incoming[k].channelName == incoming[j].channelName ==> k == j
    ensures var n := incoming[j].channelName;
      n in MergeAll(m, incoming) && MergeAll(m, incoming)[n] == MergeOne(Lookup(m, n), incoming[j])
    decreases |incoming|
  {
    var n := incoming[j].channelName;
    var init := incoming[..|incoming| - 1];
    if j == |incoming| - 1 {
      forall k | 0 <= k < |init| ensures KeysOf(init, NameOf)[k] != n {
        assert KeysOf(init, NameOf)[k] == NameOf(init[k]) && init[k] == incoming[k];
      }
      MergeAllOther(m, init, n);
    } else {
      MergeAllAt(m, init, j);
    }
  }

  /** The stored channels come out sorted by name, once per name: the old names and the new. */
  lemma MergedNames(existing: seq<ChannelData>, incoming: seq<ChannelData>)
    ensures SortedBy(Merged(existing, incoming), NameOf)
    ensures forall n :: n in KeysOf(Merged(existing, incoming), NameOf) <==>
      n in KeysOf(existing, NameOf) || n in KeysOf(incoming, NameOf)
  {
    var start := IndexBy(existing, NameOf);
    MergeAllKeys(start, incoming);
    IndexOfSortByKey(MergeAll(start, incoming), NameOf);
  }

  /** A channel present only in `existing` (and alone under its name there) is returned unchanged. */
  lemma ExistingOnlyUnchanged(existing: seq<ChannelData>, incoming: seq<ChannelData>, i: int)
    requires 0 <= i < |existing|
    requires forall j :: 0 <= j < |existing| && existing[j].channelName == existing[i].channelName ==> j == i
    requires existing[i].channelName !in KeysOf(incoming, NameOf)
    ensures existing[i] in Merged(existing, incoming)
  {
    var start := IndexBy(existing, NameOf);
    var n := existing[i].channelName;
    IndexByUnique(existing, NameOf, i);
    MergeAllOther(start, incoming, n);
    MergeAllKeys(start, incoming);
    ValueInSortByKey(MergeAll(start, incoming), NameOf, n);
  }

  /** An incoming channel under a new name (and alone under it) is inserted as given. */
  lemma NewChannelInserted(existing: seq<ChannelData>, incoming: seq<ChannelData>, j: int)
    requires 0 <= j < |incoming|
    requires forall k :: 0 <= k < |incoming| && incoming[k].channelName == incoming[j].channelName ==> k == j
    requires incoming[j].channelName !in KeysOf(existing, NameOf)
    ensures incoming[j] in Merged(existing, incoming)
  {
    var start := IndexBy(existing, NameOf);
    MergeAllAt(start, incoming, j);
    MergeAllKeys(start, incoming);
    ValueInSortByKey(MergeAll(start, incoming), NameOf, incoming[j].channelName);
  }

  /** A channel on both sides comes out with its days merged, the incoming ones winning. */
  lemma MatchedChannelMerged(existing: seq<ChannelData>, incoming: seq<ChannelData>, j: int)
    requires 0 <= j < |incoming|
    requires forall k :: 0 <= k < |incoming| && incoming[k].channelName == incoming[j].channelName ==> k == j
    requires incoming[j].channelName in KeysOf(existing, NameOf)
    ensures var n := incoming[j].channelName;
      ChannelData(n, MergeDaily(IndexBy(existing, NameOf)[n].daily, incoming[j].daily)) in Merged(existing, incoming)
  {
    var start := IndexBy(existing, NameOf);
    MergeAllAt(start, incoming, j);
    MergeAllKeys(start, incoming);
    ValueInSortByKey(MergeAll(start, incoming), NameOf, incoming[j].channelName);
  }

  // ---------------------------------------------------------- idempotence

  /** Merging the same channel a second time changes nothing, if its days are sorted and unique. */
  lemma MergeOneTwice(prev: Option<ChannelData>, inc: ChannelData)
    requires SortedBy(inc.daily, DateOf)
    ensures MergeOne(Some(MergeOne(prev, inc)), inc) == MergeOne(prev, inc)
  {
    match prev
    case None =>
      MergeDailyOwn(inc.daily);
    case Some(p) =>
      MergeDailyTwice(p.daily, inc.daily);
  }

  /** A sorted day series merged over itself is itself. */
  lemma MergeDailyOwn(daily: seq<DailyMetrics>)
    requires SortedBy(daily, DateOf)
    ensures MergeDaily(daily, daily) == daily
  {
    var x := IndexBy(daily, DateOf);
    SortIndexOfSorted(daily, DateOf);
    assert x + x == x;
  }

  /** Overlaying the same incoming days a second time changes nothing. */
  lemma MergeDailyTwice(prev: seq<DailyMetrics>, inc: seq<DailyMetrics>)
    ensures MergeDaily(MergeDaily(prev, inc), inc) == MergeDaily(prev, inc)
  {
    var p, x := IndexBy(prev, DateOf), IndexBy(inc, DateOf);
    UnionKeyed(p, x);
    IndexOfSortByKey(p + x, DateOf);
    UnionAbsorbs(p, x);
  }

  lemma UnionAbsorbs(a: map<string, DailyMetrics>, b: map<string, DailyMetrics>)
    ensures (a + b) + b == a + b
  {
  }

  lemma {:induction false} MergeAllFixed(m: map<string, ChannelData>, incoming: seq<ChannelData>)
    requires forall j :: 0 <= j < |incoming| ==> MergeInto(m, incoming[j]) == m
    ensures MergeAll(m, incoming) == m
    decreases |incoming|
  {
    if |incoming| > 0 {
      MergeAllFixed(m, incoming[..|incoming| - 1]);
    }
  }

  /**
    Merging the same batch twice is merging it once, when the batch names each channel once
    and every channel's days are sorted with no date repeated.
   */
  lemma MergeIdempotent(existing: seq<ChannelData>, incoming: seq<ChannelData>)
    requires DistinctKeys(incoming, NameOf)
    requires forall j :: 0 <= j < |incoming| ==> SortedBy(incoming[j].daily, DateOf)
    ensures Merged(Merged(existing, incoming), incoming) == Merged(existing, incoming)
  {
    var start := IndexBy(existing, NameOf);
    var m := MergeAll(start, incoming);
    MergeAllKeys(start, incoming);
    IndexOfSortByKey(m, NameOf);
    forall j | 0 <= j < |incoming| ensures MergeInto(m, incoming[j]) == m {
      MergedAgainFixed(start, incoming, j);
    }
    MergeAllFixed(m, incoming);
  }

  lemma MergedAgainFixed(start: map<string, ChannelData>, incoming: seq<ChannelData>, j: int)
    requires DistinctKeys(incoming, NameOf) && 0 <= j < |incoming|
    requires forall k :: 0 <= k < |incoming| ==> SortedBy(incoming[k].daily, DateOf)
    ensures MergeInto(MergeAll(start, incoming), incoming[j]) == MergeAll(start, incoming)
  {
    var n := incoming[j].channelName;
    NameOnce(incoming, j);
    MergeAllAt(start, incoming, j);
    MergeOneTwice(Lookup(start, n), incoming[j]);
    MergeIntoAgain(MergeAll(start, incoming), Lookup(start, n), incoming[j]);
  }

  lemma NameOnce(incoming: seq<ChannelData>, j: int)
    requires DistinctKeys(incoming, NameOf) && 0 <= j < |incoming|
    ensures forall k :: 0 <= k < |incoming| && incoming[k].channelName == incoming[j].channelName ==> k == j
  {
    forall k | 0 <= k < |incoming| && k != j ensures incoming[k].channelName != incoming[j].channelName {
      if k < j {
        assert NameOf(incoming[k]) != NameOf(incoming[j]);
      } else {
        assert NameOf(incoming[j]) != NameOf(incoming[k]);
      }
    }
  }

  /** A map already holding what merging `inc` would store is left as it is. */
  lemma MergeIntoAgain(m: map<string, ChannelData>, prev: Option<ChannelData>, inc: ChannelData)
    requires inc.channelName in m && m[inc.channelName] == MergeOne(prev, inc)
    requires MergeOne(Some(MergeOne(prev, inc)), inc) == MergeOne(prev, inc)
    ensures MergeInto(m, inc) == m
  {
    assert Lookup(m, inc.channelName) == Some(m[inc.channelName]);
  }
}
