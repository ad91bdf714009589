/**
  The JavaScript string operations the ingestion and filter code relies on, with the meaning
  JavaScript gives them: character order for `<` (by Unicode scalar value), `includes`,
  `indexOf`, `split`, `join`, `trim`, `startsWith`/`endsWith`, and the decimal rendering of
  integers (`String(n)`).
 */
module Text {
  import opened Wrappers

  // ---------------------------------------------------------------- order

  /** `a < b` on JavaScript strings: lexicographic order of the characters. */
  predicate Less(a: string, b: string)
  {
    if |a| == 0 then |b| > 0
    else if |b| == 0 then false
    else if a[0] != b[0] then a[0] < b[0]
    else Less(a[1..], b[1..])
  }

  /** `a <= b` on JavaScript strings. */
  predicate LessEq(a: string, b: string)
  {
    a == b || Less(a, b)
  }

  lemma {:induction false} LessIrreflexive(a: string)
    ensures !Less(a, a)
  {
    if |a| > 0 {
      LessIrreflexive(a[1..]);
    }
  }

  lemma {:induction false} LessTransitive(a: string, b: string, c: string)
    requires Less(a, b) && Less(b, c)
    ensures Less(a, c)
  {
    if |a| > 0 && |b| > 0 && |c| > 0 && a[0] == b[0] && b[0] == c[0] {
      LessTransitive(a[1..], b[1..], c[1..]);
    }
  }

  lemma {:induction false} LessTotal(a: string, b: string)
    ensures a == b || Less(a, b) || Less(b, a)
  {
    if |a| > 0 && |b| > 0 && a[0] == b[0] {
      LessTotal(a[1..], b[1..]);
      if a[1..] == b[1..] {
        assert a == [a[0]] + a[1..] && b == [b[0]] + b[1..];
      }
    }
  }

  lemma LessAsymmetric(a: string, b: string)
    requires Less(a, b)
    ensures !Less(b, a) && a != b
  {
    LessIrreflexive(a);
    if Less(b, a) {
      LessTransitive(a, b, a);
    }
  }

  lemma LessEqTransitive(a: string, b: string, c: string)
    requires LessEq(a, b) && LessEq(b, c)
    ensures LessEq(a, c)
  {
    if a != b && b != c {
      LessTransitive(a, b, c);
    }
  }

  // ------------------------------------------------------------ substrings

  predicate OccursAt(s: string, sub: string, i: int)
  {
    0 <= i && i + |sub| <= |s| && s[i..i + |sub|] == sub
  }

  /** `s.includes(sub)`. */
  predicate Contains(s: string, sub: string)
  {
    exists i | 0 <= i <= |s| - |sub| :: OccursAt(s, sub, i)
  }

  predicate StartsWith(s: string, prefix: string)
  {
    |prefix| <= |s| && s[..|prefix|] == prefix
  }

  predicate EndsWith(s: string, suffix: string)
  {
    |suffix| <= |s| && s[|s| - |suffix|..] == suffix
  }

  lemma OccursInTail(s: string, sub: string, i: int)
    requires |s| > 0 && i >= 0
    ensures OccursAt(s[1..], sub, i) <==> OccursAt(s, sub, i + 1)
  {
    if 0 <= i && i + |sub| <= |s| - 1 {
      assert s[1..][i..i + |sub|] == s[i + 1..i + 1 + |sub|];
    }
  }

  /** `s.indexOf(sub)`, with `None` for -1: the first position where `sub` occurs. */
  function IndexOf(s: string, sub: string): (r: Option<nat>)
    ensures r.Some? ==> OccursAt(s, sub, r.value)
    ensures r.Some? ==> forall j :: 0 <= j < r.value ==> !OccursAt(s, sub, j)
    decreases |s|
  {
    if StartsWith(s, sub) then
      assert OccursAt(s, sub, 0);
      Some(0)
    else if |s| == 0 then
      None
    else
      var t := IndexOf(s[1..], sub);
      if t.None? then None
      else
        forall j | 1 <= j < t.value + 1 ensures !OccursAt(s, sub, j) {
          OccursInTail(s, sub, j - 1);
        }
        assert !OccursAt(s, sub, 0);
        OccursInTail(s, sub, t.value);
        Some(t.value + 1)
  }

  /** `indexOf` finds nothing exactly when `sub` does not occur. */
  lemma {:induction false} IndexOfNone(s: string, sub: string)
    ensures IndexOf(s, sub).None? <==> !Contains(s, sub)
    decreases |s|
  {
    if StartsWith(s, sub) {
      assert OccursAt(s, sub, 0);
    } else if |s| > 0 {
      IndexOfNone(s[1..], sub);
      assert !OccursAt(s, sub, 0);
      if Contains(s, sub) {
        var i :| 0 <= i <= |s| - |sub| && OccursAt(s, sub, i);
        OccursInTail(s, sub, i - 1);
      }
      if Contains(s[1..], sub) {
        var i :| 0 <= i <= |s[1..]| - |sub| && OccursAt(s[1..], sub, i);
        OccursInTail(s, sub, i);
      }
    }
  }

  /** A string none of whose characters occurs in `chars`. */
  predicate AvoidsChars(s: string, chars: string)
  {
    forall k :: 0 <= k < |s| ==> s[k] !in chars
  }

  lemma OccursAtHead(s: string, sub: string, i: int)
    requires |sub| > 0
    ensures OccursAt(s, sub, i) ==> s[i] == sub[0]
  {
    if OccursAt(s, sub, i) {
      assert s[i..i + |sub|][0] == s[i];
    }
  }

  lemma OccursAtChar(s: string, sub: string, i: int, k: int)
    ensures OccursAt(s, sub, i) && 0 <= k < |sub| ==> s[i + k] == sub[k]
  {
    if OccursAt(s, sub, i) && 0 <= k < |sub| {
      assert s[i..i + |sub|][k] == s[i + k];
    }
  }

  lemma AvoidingNoOccurrence(a: string, sep: string, b: string, j: int)
    requires |sep| > 0 && AvoidsChars(a, sep) && 0 <= j < |a|
    ensures !OccursAt(a + b, sep, j)
  {
    OccursAtHead(a + b, sep, j);
    assert (a + b)[j] == a[j];
  }

  /** When `a` shares no character with `sep`, the first `sep` in `a + sep + b` is the one after `a`. */
  lemma IndexOfAfter(a: string, sep: string, b: string)
    requires |sep| > 0 && AvoidsChars(a, sep)
    ensures IndexOf(a + sep + b, sep) == Some(|a|)
  {
    var s := a + sep + b;
    assert s[|a|..|a| + |sep|] == sep;
    assert OccursAt(s, sep, |a|);
    IndexOfNone(s, sep);
    forall j | 0 <= j < |a| ensures !OccursAt(s, sep, j) {
      assert s == a + (sep + b);
      AvoidingNoOccurrence(a, sep, sep + b, j);
    }
  }

  lemma AvoidingNotContains(a: string, sep: string)
    requires |sep| > 0 && AvoidsChars(a, sep)
    ensures !Contains(a, sep) && IndexOf(a, sep) == None
  {
    IndexOfNone(a, sep);
    forall j | 0 <= j <= |a| - |sep| ensures !OccursAt(a, sep, j) {
      assert a + [] == a;
      AvoidingNoOccurrence(a, sep, [], j);
    }
  }

  // ------------------------------------------------------- split and join

  /** `s.split(sep)` for a non-empty separator: the pieces between the occurrences, left to right. */
  function Split(s: string, sep: string): (parts: seq<string>)
    requires |sep| > 0
    ensures |parts| >= 1
    decreases |s|
  {
    var first := IndexOf(s, sep);
    if first.None? then [s]
    else [s[..first.value]] + Split(s[first.value + |sep|..], sep)
  }

  lemma {:induction false} SplitAt(s: string, sep: string, i: nat)
    requires |sep| > 0 && IndexOf(s, sep) == Some(i)
    ensures i + |sep| <= |s| && Split(s, sep) == [s[..i]] + Split(s[i + |sep|..], sep)
  {
    IndexOfBound(s, sep, i);
  }

  lemma {:induction false} IndexOfBound(s: string, sep: string, i: nat)
    requires IndexOf(s, sep) == Some(i)
    ensures i + |sep| <= |s|
  {
    assert OccursAt(s, sep, i);
  }

  lemma JoinCons(x: string, rest: seq<string>, sep: string)
    requires |rest| >= 1
    ensures Join([x] + rest, sep) == x + sep + Join(rest, sep)
  {
    assert ([x] + rest)[1..] == rest;
  }

  /** `parts.join(sep)`. */
  function Join(parts: seq<string>, sep: string): string
  {
    if |parts| == 0 then ""
    else if |parts| == 1 then parts[0]
    else parts[0] + sep + Join(parts[1..], sep)
  }

  /** Splitting and re-joining on the same separator gives the string back. */
  lemma {:induction false} JoinSplit(s: string, sep: string)
    requires |sep| > 0
    ensures Join(Split(s, sep), sep) == s
    decreases |s|
  {
    match IndexOf(s, sep)
    case None =>
    case Some(i) =>
      SplitAt(s, sep, i);
      var rest := s[i + |sep|..];
      JoinSplit(rest, sep);
      JoinCons(s[..i], Split(rest, sep), sep);
      Reassemble(s, sep, i);
  }

  /** Around an occurrence, a string is what comes before, the separator and what follows. */
  lemma Reassemble(s: string, sep: string, i: nat)
    requires IndexOf(s, sep) == Some(i)
    ensures i + |sep| <= |s| && s == s[..i] + sep + s[i + |sep|..]
  {
    assert OccursAt(s, sep, i);
    assert s == s[..i] + s[i..i + |sep|] + s[i + |sep|..];
  }

  lemma SplitAfter(a: string, sep: string, b: string)
    requires |sep| > 0 && AvoidsChars(a, sep)
    ensures Split(a + sep + b, sep) == [a] + Split(b, sep)
  {
    IndexOfAfter(a, sep, b);
    var s := a + sep + b;
    assert s[..|a|] == a;
    assert s[|a| + |sep|..] == b;
  }

  lemma SplitAvoiding(a: string, sep: string)
    requires |sep| > 0 && AvoidsChars(a, sep)
    ensures Split(a, sep) == [a]
  {
    AvoidingNotContains(a, sep);
  }

  /** A separator without spaces occurs in the space-joined keys exactly when it occurs in one key. */
  lemma {:induction false} JoinedContains(keys: seq<string>, sub: string)
    requires |sub| > 0 && ' ' !in sub
    ensures Contains(Join(keys, " "), sub) <==> exists k :: k in keys && Contains(k, sub)
  {
    if |keys| == 0 {
      assert !OccursAt("", sub, 0);
    } else if |keys| > 1 {
      JoinedContains(keys[1..], sub);
      ContainsAroundSpace(keys[0], Join(keys[1..], " "), sub);
      assert forall k :: k in keys <==> k == keys[0] || k in keys[1..];
    }
  }

  lemma ContainsAroundSpace(a: string, b: string, sub: string)
    requires |sub| > 0 && ' ' !in sub
    ensures Contains(a + " " + b, sub) <==> Contains(a, sub) || Contains(b, sub)
  {
    var s := a + " " + b;
    assert s[|a| + 1..] == b;
    if Contains(s, sub) {
      var i :| 0 <= i <= |s| - |sub| && OccursAt(s, sub, i);
      OccursAtChar(s, sub, i, |a| - i);
      if i + |sub| <= |a| {
        assert s[i..i + |sub|] == a[i..i + |sub|];
        assert OccursAt(a, sub, i);
      } else if i > |a| {
        assert s[i..i + |sub|] == s[|a| + 1..][i - |a| - 1..i - |a| - 1 + |sub|];
        assert OccursAt(b, sub, i - |a| - 1);
      } else {
        assert false;
      }
    }
    if Contains(a, sub) {
      var i :| 0 <= i <= |a| - |sub| && OccursAt(a, sub, i);
      assert s[i..i + |sub|] == a[i..i + |sub|];
      assert OccursAt(s, sub, i);
    }
    if Contains(b, sub) {
      var i :| 0 <= i <= |b| - |sub| && OccursAt(b, sub, i);
      assert s[i + |a| + 1..i + |a| + 1 + |sub|] == s[|a| + 1..][i..i + |sub|];
      assert OccursAt(s, sub, i + |a| + 1);
    }
  }

  // ------------------------------------------------------------ trimming

  /** The characters `String.prototype.trim` removes: ECMAScript WhiteSpace and LineTerminator. */
  predicate IsSpace(c: char)
  {
    c == '\t' || c == '\n' || c == '\U{B}' || c == '\U{C}' || c == '\r' || c == ' ' ||
    c == '\U{A0}' || c == '\U{1680}' || ('\U{2000}' <= c <= '\U{200A}') ||
    c == '\U{2028}' || c == '\U{2029}' || c == '\U{202F}' || c == '\U{205F}' ||
    c == '\U{3000}' || c == '\U{FEFF}'
  }

  function TrimStart(s: string): (r: string)
    ensures |r| <= |s| && r == s[|s| - |r|..]
    ensures |r| > 0 ==> !IsSpace(r[0])
    ensures forall k :: 0 <= k < |s| - |r| ==> IsSpace(s[k])
    decreases |s|
  {
    if |s| > 0 && IsSpace(s[0]) then TrimStart(s[1..]) else s
  }

  function TrimEnd(s: string): (r: string)
    ensures |r| <= |s| && r == s[..|r|]
    ensures |r| > 0 ==> !IsSpace(r[|r| - 1])
    ensures forall k :: |r| <= k < |s| ==> IsSpace(s[k])
    decreases |s|
  {
    if |s| > 0 && IsSpace(s[|s| - 1]) then TrimEnd(s[..|s| - 1]) else s
  }

  /** `s.trim()`. */
  function Trim(s: string): (r: string)
    ensures |r| > 0 ==> !IsSpace(r[0]) && !IsSpace(r[|r| - 1])
    ensures |r| == 0 <==> forall k :: 0 <= k < |s| ==> IsSpace(s[k])
  {
    var t := TrimStart(s);
    var r := TrimEnd(t);
    assert |r| > 0 ==> r[0] == t[0];
    assert |t| > 0 ==> t[0] == s[|s| - |t|];
    r
  }

  /** A string that neither starts nor ends with a space is its own trim. */
  lemma TrimUnchanged(s: string)
    requires |s| > 0 && !IsSpace(s[0]) && !IsSpace(s[|s| - 1])
    ensures Trim(s) == s
  {
    assert TrimStart(s) == s;
    assert TrimEnd(s) == s;
  }

  /** Where a one-character needle is found: at `c`, with no `c` before it. */
  lemma IndexOfCharSome(s: string, c: char, i: nat)
    requires IndexOf(s, [c]) == Some(i)
    ensures i < |s| && s[i] == c
    ensures forall j :: 0 <= j < i ==> s[j] != c
  {
    assert OccursAt(s, [c], i);
    assert s[i..i + 1][0] == s[i];
    forall j | 0 <= j < i ensures s[j] != c {
      CharOccursAt(s, c, j);
    }
  }

  lemma CharOccursAt(s: string, c: char, j: nat)
    requires j < |s|
    ensures OccursAt(s, [c], j) <==> s[j] == c
  {
    assert s[j..j + 1] == [s[j]];
  }

  /** A one-character needle that is not found does not occur. */
  lemma IndexOfCharNone(s: string, c: char)
    requires IndexOf(s, [c]) == None
    ensures forall j :: 0 <= j < |s| ==> s[j] != c
  {
    IndexOfNone(s, [c]);
    forall j | 0 <= j < |s| ensures s[j] != c {
      assert !OccursAt(s, [c], j);
      CharOccursAt(s, c, j);
    }
  }

  // --------------------------------------------------------- letter case

  function LowerChar(c: char): char
  {
    if 'A' <= c <= 'Z' then (c as int + 32) as char else c
  }

  /** `s.toLowerCase()` on the ASCII letters. */
  function ToLower(s: string): (r: string)
    ensures |r| == |s|
    ensures forall k :: 0 <= k < |s| ==> r[k] == LowerChar(s[k])
  {
    seq(|s|, k requires 0 <= k < |s| => LowerChar(s[k]))
  }

  // --------------------------------------------------- decimal integers

  predicate IsDigit(c: char)
  {
    '0' <= c <= '9'
  }

  predicate AllDigits(s: string)
  {
    forall k :: 0 <= k < |s| ==> IsDigit(s[k])
  }

  function DigitValue(c: char): nat
    requires IsDigit(c)
  {
    c as int - '0' as int
  }

  function DigitChar(d: nat): (c: char)
    requires d < 10
    ensures IsDigit(c) && DigitValue(c) == d
  {
    ('0' as int + d) as char
  }

  /** The value of a string of decimal digits; the empty string is 0, as `Number("")` is. */
  function DigitsValue(s: string): nat
    requires AllDigits(s)
    decreases |s|
  {
    if |s| == 0 then 0 else DigitsValue(s[..|s| - 1]) * 10 + DigitValue(s[|s| - 1])
  }

  /** `String(n)` for a natural number: its decimal digits, without leading zeros. */
  function NatToString(n: nat): (r: string)
    ensures |r| >= 1 && AllDigits(r)
    ensures |r| > 1 ==> r[0] != '0'
    decreases n
  {
    if n < 10 then [DigitChar(n)] else NatToString(n / 10) + [DigitChar(n % 10)]
  }

  /** Reading back the digits `String(n)` writes gives `n`. */
  lemma {:induction false} NatToStringValue(n: nat)
    ensures DigitsValue(NatToString(n)) == n
    decreases n
  {
    if n >= 10 {
      NatToStringValue(n / 10);
      var s := NatToString(n);
      assert s[..|s| - 1] == NatToString(n / 10);
    }
  }

  /** A leading zero does not change the value of a digit string. */
  lemma {:induction false} LeadingZeroValue(s: string)
    requires AllDigits(s)
    ensures AllDigits("0" + s) && DigitsValue("0" + s) == DigitsValue(s)
    decreases |s|
  {
    if |s| > 0 {
      LeadingZeroValue(s[..|s| - 1]);
      assert ("0" + s)[..|s|] == "0" + s[..|s| - 1];
    }
  }

  lemma DigitsAvoidChars(s: string, chars: string)
    requires AllDigits(s) && forall k :: 0 <= k < |chars| ==> !IsDigit(chars[k])
    ensures AvoidsChars(s, chars)
  {
  }
}
