/**
  Collections keyed by a string (a date or a channel name) and the one ordering the source
  imposes on them: `Array.from(map.values()).sort((a, b) => key(a).localeCompare(key(b)))`,
  with `localeCompare` read as character order (`Text.Less`).
  Because the keys of a map are distinct, every correct sort yields the same sequence, so
  the sorted result is defined by `SortByKey` and computed by an insertion sort.
 */
module Keyed {
  import opened Text

  /** Ascending with no key repeated. */
  predicate StrictlySorted(ks: seq<string>)
  {
    forall i, j :: 0 <= i < j < |ks| ==> Less(ks[i], ks[j])
  }

  /** `m` is at or below every key of `ks`. */
  predicate IsMin(m: string, ks: set<string>)
  {
    forall k :: k in ks ==> LessEq(m, k)
  }

  lemma {:induction false} MinimumExists(ks: set<string>)
    requires ks != {}
    ensures exists m :: m in ks && IsMin(m, ks)
    decreases |ks|
  {
    var x :| x in ks;
    var rest := ks - {x};
    assert ks == rest + {x};
    if rest == {} {
      assert IsMin(x, ks);
    } else {
      MinimumExists(rest);
      var m :| m in rest && IsMin(m, rest);
      var w := MinimumWith(rest, x, m);
    }
  }

  /** The minimum after adding `x` is `x` or the old minimum. */
  lemma MinimumWith(rest: set<string>, x: string, m: string) returns (w: string)
    requires m in rest && IsMin(m, rest)
    ensures w in rest + {x} && IsMin(w, rest + {x})
  {
    LessTotal(m, x);
    if Less(x, m) {
      w := x;
      forall k | k in rest + {x} ensures LessEq(x, k) {
        if k != x {
          LessEqTransitive(x, m, k);
        }
      }
    } else {
      w := m;
    }
  }

  /** The keys of `ks` in ascending order. */
  ghost function SortKeys(ks: set<string>): (r: seq<string>)
    ensures StrictlySorted(r)
    ensures forall k :: k in r <==> k in ks
    ensures |r| == |ks|
    decreases |ks|
  {
    if ks == {} then []
    else
      MinimumExists(ks);
      var m :| m in ks && IsMin(m, ks);
      var rest := SortKeys(ks - {m});
      var r := [m] + rest;
      forall i, j | 0 <= i < j < |r| ensures Less(r[i], r[j]) {
        if i == 0 {
          assert r[j] in ks - {m};
        } else {
          assert r[i] == rest[i - 1] && r[j] == rest[j - 1];
        }
      }
      r
  }

  lemma NoElementsEmpty(b: seq<string>)
    ensures (forall k :: k !in b) ==> b == []
  {
    if b != [] {
      assert b[0] in b;
    }
  }

  /** Two strictly ascending sequences with the same elements are equal. */
  lemma {:induction false} SortedUnique(a: seq<string>, b: seq<string>)
    requires StrictlySorted(a) && StrictlySorted(b)
    requires forall k :: k in a <==> k in b
    ensures a == b
    decreases |a|
  {
    if |a| == 0 {
      NoElementsEmpty(b);
    } else {
      assert a[0] in b;
      assert |b| > 0;
      assert b[0] in a;
      var i :| 0 <= i < |a| && a[i] == b[0];
      var j :| 0 <= j < |b| && b[j] == a[0];
      if i > 0 && j > 0 {
        LessAsymmetric(a[0], a[i]);
      } else if i > 0 {
        LessIrreflexive(a[0]);
      } else if j > 0 {
        LessIrreflexive(b[0]);
      }
      assert a[0] == b[0];
      forall k ensures k in a[1..] <==> k in b[1..] {
        if k in a[1..] {
          var p :| 1 <= p < |a| && a[p] == k;
          LessAsymmetric(a[0], a[p]);
          assert k in a;
          var q :| 0 <= q < |b| && b[q] == k;
          assert q != 0;
          assert b[1..][q - 1] == k;
        }
        if k in b[1..] {
          var p :| 1 <= p < |b| && b[p] == k;
          LessAsymmetric(b[0], b[p]);
          assert k in b;
          var q :| 0 <= q < |a| && a[q] == k;
          assert q != 0;
          assert a[1..][q - 1] == k;
        }
      }
      SortedUnique(a[1..], b[1..]);
      assert a == [a[0]] + a[1..] && b == [b[0]] + b[1..];
    }
  }

  /** Inserting `k` at the position where it belongs keeps a sequence strictly ascending. */
  lemma InsertSorted(ks: seq<string>, k: string, p: nat)
    requires StrictlySorted(ks) && p <= |ks|
    requires forall j :: 0 <= j < p ==> Less(ks[j], k)
    requires forall j :: p <= j < |ks| ==> Less(k, ks[j])
    ensures StrictlySorted(ks[..p] + [k] + ks[p..])
  {
    var r := ks[..p] + [k] + ks[p..];
    forall i, j | 0 <= i < j < |r| ensures Less(r[i], r[j]) {
      if j < p {
        assert r[i] == ks[i] && r[j] == ks[j];
      } else if j == p {
        assert r[i] == ks[i];
      } else if i < p {
        assert r[i] == ks[i] && r[j] == ks[j - 1];
      } else if i == p {
        assert r[j] == ks[j - 1];
      } else {
        assert r[i] == ks[i - 1] && r[j] == ks[j - 1];
      }
    }
  }

  /** Where a new key goes in a strictly ascending sequence of keys. */
  lemma InsertPosition(ks: seq<string>, k: string) returns (p: nat)
    requires StrictlySorted(ks) && k !in ks
    ensures p <= |ks| && StrictlySorted(ks[..p] + [k] + ks[p..])
    ensures forall x :: x in ks[..p] + [k] + ks[p..] <==> x in ks || x == k
  {
    p := 0;
    while p < |ks| && Less(ks[p], k)
      invariant 0 <= p <= |ks|
      invariant forall j :: 0 <= j < p ==> Less(ks[j], k)
    {
      p := p + 1;
    }
    if p < |ks| {
      LessTotal(ks[p], k);
      forall j | p < j < |ks| ensures Less(k, ks[j]) {
        LessTransitive(k, ks[p], ks[j]);
      }
    }
    InsertSorted(ks, k, p);
    assert ks == ks[..p] + ks[p..];
  }

  /** Inserts a new key into a strictly ascending sequence of keys. */
  method InsertKey(ks: seq<string>, k: string) returns (r: seq<string>)
    requires StrictlySorted(ks) && k !in ks
    ensures StrictlySorted(r)
    ensures forall x :: x in r <==> x in ks || x == k
  {
    var p := 0;
    while p < |ks| && Less(ks[p], k)
      invariant 0 <= p <= |ks|
      invariant forall j :: 0 <= j < p ==> Less(ks[j], k)
    {
      p := p + 1;
    }
    if p < |ks| {
      LessTotal(ks[p], k);
      forall j | p < j < |ks| ensures Less(k, ks[j]) {
        LessTransitive(k, ks[p], ks[j]);
      }
    }
    InsertSorted(ks, k, p);
    r := ks[..p] + [k] + ks[p..];
    assert ks == ks[..p] + ks[p..];
  }

  /** The keys of `keys` in ascending order, by repeated insertion. */
  method SortedKeys(keys: set<string>) returns (r: seq<string>)
    ensures r == SortKeys(keys)
  {
    r := [];
    var rest := keys;
    while rest != {}
      invariant rest <= keys
      invariant StrictlySorted(r)
      invariant forall x :: x in r <==> x in keys && x !in rest
      decreases |rest|
    {
      var k :| k in rest;
      r := InsertKey(r, k);
      rest := rest - {k};
    }
    SortedUnique(r, SortKeys(keys));
  }

  // ------------------------------------------------------- keyed values

  /** The values of `m` in ascending order of their keys. */
  ghost function SortByKey<T>(m: map<string, T>): (r: seq<T>)
    ensures |r| == |m|
  {
    var ks := SortKeys(m.Keys);
    seq(|ks|, i requires 0 <= i < |ks| => m[ks[i]])
  }

  /** `Array.from(m.values()).sort(byKey)` for a map whose entries are keyed by `key`. */
  method SortedValues<T>(m: map<string, T>) returns (r: seq<T>)
    ensures r == SortByKey(m)
  {
    var ks := SortedKeys(m.Keys);
    r := seq(|ks|, i requires 0 <= i < |ks| => m[ks[i]]);
  }

  /** The keys of a sequence, in its order. */
  function KeysOf<T>(s: seq<T>, key: T -> string): (ks: seq<string>)
    ensures |ks| == |s|
  {
    seq(|s|, i requires 0 <= i < |s| => key(s[i]))
  }

  /** Ascending by `key` with no key repeated. */
  predicate SortedBy<T>(s: seq<T>, key: T -> string)
  {
    StrictlySorted(KeysOf(s, key))
  }

  /** Every entry of `m` is stored under its own key. */
  predicate KeyedBy<T>(m: map<string, T>, key: T -> string)
  {
    forall k :: k in m ==> key(m[k]) == k
  }

  /** `new Map(s.map(x => [key(x), x]))`: a later entry with the same key replaces an earlier one. */
  ghost function IndexBy<T>(s: seq<T>, key: T -> string): (m: map<string, T>)
    ensures KeyedBy(m, key)
    ensures forall k :: k in m <==> k in KeysOf(s, key)
    ensures forall x :: x in m.Values ==> x in s
    decreases |s|
  {
    if |s| == 0 then map[]
    else
      var init := s[..|s| - 1];
      var m := IndexBy(init, key)[key(s[|s| - 1]) := s[|s| - 1]];
      assert forall k :: k in KeysOf(s, key) <==> k in KeysOf(init, key) || k == key(s[|s| - 1]) by {
        KeysOfSnoc(s, key);
      }
      forall x | x in m.Values ensures x in s {
        var k :| k in m && m[k] == x;
        if k != key(s[|s| - 1]) {
          assert x in IndexBy(init, key).Values;
        }
      }
      m
  }

  /** The keys of a sequence are those of all but its last element, then the last one's. */
  lemma KeysOfSnoc<T>(s: seq<T>, key: T -> string)
    requires |s| > 0
    ensures KeysOf(s, key) == KeysOf(s[..|s| - 1], key) + [key(s[|s| - 1])]
  {
    var n := |s| - 1;
    var a, b := KeysOf(s, key), KeysOf(s[..n], key) + [key(s[n])];
    forall i | 0 <= i < |a| ensures a[i] == b[i] {
      assert a[i] == key(s[i]);
      if i < n {
        assert b[i] == KeysOf(s[..n], key)[i] == key(s[..n][i]);
      } else {
        assert b[i] == key(s[n]);
      }
    }
  }

  lemma {:induction false} IndexByAppend<T>(a: seq<T>, b: seq<T>, key: T -> string)
    ensures IndexBy(a + b, key) == IndexBy(a, key) + IndexBy(b, key)
    decreases |b|
  {
    if |b| > 0 {
      var n := |b| - 1;
      IndexByAppend(a, b[..n], key);
      assert (a + b)[..|a + b| - 1] == a + b[..n];
      assert (a + b)[|a + b| - 1] == b[n];
      UnionUpdate(IndexBy(a, key), IndexBy(b[..n], key), key(b[n]), b[n]);
    } else {
      assert a + b == a;
    }
  }

  lemma UnionUpdate<T>(x: map<string, T>, y: map<string, T>, k: string, v: T)
    ensures (x + y)[k := v] == x + y[k := v]
  {
  }

  lemma SortedInjective(ks: seq<string>, i: int, j: int)
    requires StrictlySorted(ks) && 0 <= i < |ks| && 0 <= j < |ks| && ks[i] == ks[j]
    ensures i == j
  {
    LessIrreflexive(ks[i]);
  }

  lemma SortByKeyAt<T>(m: map<string, T>, i: int)
    requires 0 <= i < |m|
    ensures SortKeys(m.Keys)[i] in m && SortByKey(m)[i] == m[SortKeys(m.Keys)[i]]
  {
  }

  /** A strictly ascending sequence is what sorting its own index gives back. */
  lemma SortIndexOfSorted<T>(s: seq<T>, key: T -> string)
    requires SortedBy(s, key)
    ensures SortByKey(IndexBy(s, key)) == s
  {
    var m := IndexBy(s, key);
    var ks := KeysOf(s, key);
    SortedUnique(SortKeys(m.Keys), ks);
    forall i | 0 <= i < |s| ensures m[ks[i]] == s[i] {
      var x := m[ks[i]];
      assert x in m.Values;
      var j :| 0 <= j < |s| && s[j] == x;
      assert ks[j] == ks[i];
      SortedInjective(ks, i, j);
    }
  }

  /** Indexing the sorted values of a keyed map gives the map back. */
  lemma IndexOfSortByKey<T>(m: map<string, T>, key: T -> string)
    requires KeyedBy(m, key)
    ensures IndexBy(SortByKey(m), key) == m
    ensures SortedBy(SortByKey(m), key)
  {
    var s := SortByKey(m);
    var ks := SortKeys(m.Keys);
    SortByKeyKeys(m, key);
    var n := IndexBy(s, key);
    forall k | k in n ensures k in m && n[k] == m[k] {
      var x := n[k];
      assert x in s;
      var i :| 0 <= i < |s| && s[i] == x;
      assert s[i] == m[ks[i]] && key(x) == k;
    }
    forall k | k in m ensures k in n {
      assert k in ks;
    }
  }

  /** The sorted values of a keyed map: ascending, with exactly the map's keys, each value the map's entry for its key. */
  lemma SortByKeyContents<T>(m: map<string, T>, key: T -> string)
    requires KeyedBy(m, key)
    ensures SortedBy(SortByKey(m), key)
    ensures forall k :: k in KeysOf(SortByKey(m), key) <==> k in m
    ensures forall x :: x in SortByKey(m) ==> key(x) in m && m[key(x)] == x
  {
    var s := SortByKey(m);
    var ks := SortKeys(m.Keys);
    IndexOfSortByKey(m, key);
    SortByKeyKeys(m, key);
    forall x | x in s ensures key(x) in m && m[key(x)] == x {
      var i :| 0 <= i < |s| && s[i] == x;
      assert ks[i] in m && s[i] == m[ks[i]];
    }
  }

  /** The keys of the sorted values of a keyed map are its sorted keys. */
  lemma SortByKeyKeys<T>(m: map<string, T>, key: T -> string)
    requires KeyedBy(m, key)
    ensures KeysOf(SortByKey(m), key) == SortKeys(m.Keys)
  {
    var s, ks := SortByKey(m), SortKeys(m.Keys);
    forall i | 0 <= i < |ks| ensures KeysOf(s, key)[i] == ks[i] {
      assert ks[i] in m && s[i] == m[ks[i]];
    }
  }

  /** Replacing the value under an existing key replaces one element of the sorted values. */
  lemma SortByKeyUpdate<T>(m: map<string, T>, k: string, v: T) returns (p: nat)
    requires k in m
    ensures p < |m| && SortByKey(m[k := v]) == SortByKey(m)[p := v]
    ensures SortByKey(m)[p] == m[k]
  {
    var ks := SortKeys(m.Keys);
    assert m[k := v].Keys == m.Keys;
    assert k in ks;
    p :| p < |ks| && ks[p] == k;
    forall i | 0 <= i < |ks| && ks[i] == k ensures i == p {
      SortedInjective(ks, i, p);
    }
  }

  /** Adding a value under a new key inserts one element into the sorted values. */
  lemma SortByKeyInsert<T>(m: map<string, T>, k: string, v: T) returns (p: nat)
    requires k !in m
    ensures p <= |m| && SortByKey(m[k := v]) == SortByKey(m)[..p] + [v] + SortByKey(m)[p..]
  {
    var ks := SortKeys(m.Keys);
    p := SortKeysInsert(m, k, v);
    var ks' := ks[..p] + [k] + ks[p..];
    var m' := m[k := v];
    var s := SortByKey(m);
    var s' := SortByKey(m');
    var r := s[..p] + [v] + s[p..];
    forall i | 0 <= i < |s'| ensures s'[i] == r[i] {
      assert s'[i] == m'[ks'[i]];
      if i < p {
        assert ks'[i] == ks[i] && ks[i] in m;
        assert r[i] == s[i] == m[ks[i]];
      } else if i > p {
        assert ks'[i] == ks[i - 1] && ks[i - 1] in m;
        assert r[i] == s[i - 1] == m[ks[i - 1]];
      } else {
        assert ks'[i] == k && r[i] == v;
      }
    }
  }

  /** Adding a new key inserts it into the sorted keys. */
  lemma SortKeysInsert<T>(m: map<string, T>, k: string, v: T) returns (p: nat)
    requires k !in m
    ensures p <= |m| && SortKeys(m[k := v].Keys) == SortKeys(m.Keys)[..p] + [k] + SortKeys(m.Keys)[p..]
  {
    var ks := SortKeys(m.Keys);
    p := InsertPosition(ks, k);
    var ks' := ks[..p] + [k] + ks[p..];
    assert forall x :: x in ks' <==> x in m[k := v].Keys;
    SortedUnique(SortKeys(m[k := v].Keys), ks');
  }

  /** No two elements of `s` share a key. */
  predicate DistinctKeys<T>(s: seq<T>, key: T -> string)
  {
    forall i, j :: 0 <= i < j < |s| ==> key(s[i]) != key(s[j])
  }

  /** Every value of a keyed map appears in its sorted values. */
  lemma ValueInSortByKey<T>(m: map<string, T>, key: T -> string, k: string)
    requires KeyedBy(m, key) && k in m
    ensures m[k] in SortByKey(m)
  {
    IndexOfSortByKey(m, key);
    assert m[k] in IndexBy(SortByKey(m), key).Values;
  }

  /** An element whose key no other element shares is what the index holds under its key. */
  lemma IndexByUnique<T>(s: seq<T>, key: T -> string, i: int)
    requires 0 <= i < |s| && forall j :: 0 <= j < |s| && key(s[j]) == key(s[i]) ==> j == i
    ensures key(s[i]) in IndexBy(s, key) && IndexBy(s, key)[key(s[i])] == s[i]
  {
    var m := IndexBy(s, key);
    assert key(s[i]) in KeysOf(s, key);
    var x := m[key(s[i])];
    assert x in m.Values;
    var j :| 0 <= j < |s| && s[j] == x;
  }

  /** `new Map(s.map(x => [key(x), x]))`, entry by entry. */
  method Index<T>(s: seq<T>, key: T -> string) returns (m: map<string, T>)
    ensures m == IndexBy(s, key)
  {
    m := map[];
    var i := 0;
    while i < |s|
      invariant 0 <= i <= |s|
      invariant m == IndexBy(s[..i], key)
    {
      assert s[..i + 1][..i] == s[..i];
      m := m[key(s[i]) := s[i]];
      i := i + 1;
    }
    assert s[..|s|] == s;
  }
}
