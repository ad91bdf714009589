/**
  `detectCsvKind` (src/lib/csv.ts): which of the four kinds a file holds, judged by the
  header keys of its first data row. The source searches the keys joined with spaces; the
  contract restates each outcome key by key.
 */
module Detect {
  import opened Wrappers
  import opened Text
  import opened Types

  /** `Object.keys(rows[0] ?? {})`: a file without data rows has no keys. */
  function HeaderKeys(rows: seq<Row>): (keys: seq<string>)
    ensures |rows| == 0 ==> keys == []
  {
    if |rows| == 0 then [] else RowKeys(rows[0])
  }

  /** Some header key contains `sub`. */
  predicate AnyKeyContains(keys: seq<string>, sub: string)
  {
    exists k :: k in keys && Contains(k, sub)
  }

  predicate LooksLikeWatchTime(keys: seq<string>)
  {
    AnyKeyContains(keys, "watch") && (AnyKeyContains(keys, "minute") || AnyKeyContains(keys, "hour"))
  }

  predicate LooksLikeSubscribers(keys: seq<string>)
  {
    AnyKeyContains(keys, "subs") || AnyKeyContains(keys, "subscriber")
  }

  /**
    `detectCsvKind`: searches the keys joined with spaces for revenue first, then watch time,
    then subscribers, then views.
   */
  function DetectCsvKind(rows: seq<Row>): Option<Kind>
  {
    var keys := HeaderKeys(rows);
    var keysStr := Join(keys, " ");
    if Contains(keysStr, "revenue") then Some(Revenue)
    else if Contains(keysStr, "watch") && (Contains(keysStr, "minute") || Contains(keysStr, "hour")) then
      Some(WatchTime)
    else if Contains(keysStr, "subs") || Contains(keysStr, "subscriber") then Some(Subscribers)
    else if "views" in keys || Contains(keysStr, "view") then Some(Views)
    else None
  }

  /** What `DetectCsvKind` decides, key by key: the words need not sit in the same key. */
  lemma DetectCsvKindMeaning(rows: seq<Row>)
    ensures var k := DetectCsvKind(rows); var keys := HeaderKeys(rows);
      && (k == Some(Revenue) <==> AnyKeyContains(keys, "revenue"))
      && (k == Some(WatchTime) <==> !AnyKeyContains(keys, "revenue") && LooksLikeWatchTime(keys))
      && (k == Some(Subscribers) <==>
            !AnyKeyContains(keys, "revenue") && !LooksLikeWatchTime(keys) && LooksLikeSubscribers(keys))
      && (k == Some(Views) <==>
            !AnyKeyContains(keys, "revenue") && !LooksLikeWatchTime(keys) && !LooksLikeSubscribers(keys)
            && AnyKeyContains(keys, "view"))
  {
    var keys := HeaderKeys(rows);
    JoinedContains(keys, "revenue");
    JoinedContains(keys, "watch");
    JoinedContains(keys, "minute");
    JoinedContains(keys, "hour");
    JoinedContains(keys, "subs");
    JoinedContains(keys, "subscriber");
    JoinedContains(keys, "view");
    ViewsWordContainsView(keys);
  }

  /** A file without data rows is not recognised. */
  lemma NoRowsUndetected(rows: seq<Row>)
    requires |rows| == 0
    ensures DetectCsvKind(rows) == None
  {
    assert !OccursAt("", "revenue", 0) && !OccursAt("", "watch", 0) && !OccursAt("", "subs", 0);
    assert !OccursAt("", "subscriber", 0) && !OccursAt("", "view", 0);
  }

  /** The exact-key test for `views` adds nothing: such a key already contains `view`. */
  lemma ViewsWordContainsView(keys: seq<string>)
    ensures "views" in keys ==> AnyKeyContains(keys, "view")
  {
    if "views" in keys {
      assert OccursAt("views", "view", 0);
    }
  }

  /** Likewise `subscriber` adds nothing to `subs`, of which it is an extension. */
  lemma SubscriberContainsSubs(k: string)
    ensures Contains(k, "subscriber") ==> Contains(k, "subs")
  {
    if Contains(k, "subscriber") {
      var i :| 0 <= i <= |k| - |"subscriber"| && OccursAt(k, "subscriber", i);
      assert k[i..i + 4] == k[i..i + 10][..4];
      assert OccursAt(k, "subs", i);
    }
  }

  /** A header with only a date key and unrelated columns is not recognised. */
  lemma UnrelatedHeaderUndetected(rows: seq<Row>)
    requires |rows| > 0
    requires forall k :: k in RowKeys(rows[0]) ==>
      !Contains(k, "revenue") && !Contains(k, "watch") && !Contains(k, "subs") && !Contains(k, "view")
    ensures DetectCsvKind(rows) == None
  {
    forall k | k in RowKeys(rows[0]) ensures !Contains(k, "subscriber") {
      SubscriberContainsSubs(k);
    }
    DetectCsvKindMeaning(rows);
  }
}
