/**
  The cell normalisers of the ingestion engine (src/lib/csv.ts): `normalizeDate` turns a date
  cell into a `YYYY-MM-DD` key or nothing, `parseNumber` turns any cell into a number.
 */
module Normalize {
  import opened Wrappers
  import opened Text

  function Min(a: int, b: int): int
  {
    if a <= b then a else b
  }

  /**
    `normalizeDate`: the trimmed cell cut to its first ten characters, or `None` for an empty
    cell or one that date-fns does not accept. `isoValid(s)` stands for `isValid(parseISO(s))`.
   */
  function NormalizeDate(isoValid: string -> bool, raw: string): (r: Option<string>)
    ensures r.None? <==> Trim(raw) == "" || !isoValid(Trim(raw))
    ensures r.Some? ==> |r.value| == Min(10, |Trim(raw)|) && StartsWith(Trim(raw), r.value)
  {
    var trimmed := Trim(raw);
    if trimmed == "" then None
    else if !isoValid(trimmed) then None
    else Some(trimmed[..Min(10, |trimmed|)])
  }

  /** A time of day after a ten-character date is dropped: both normalise to the date. */
  lemma TimeOfDayDropped(isoValid: string -> bool, day: string, time: string)
    requires |day| == 10 && !IsSpace(day[0]) && !IsSpace(day[9])
    requires |time| > 0 ==> !IsSpace(time[|time| - 1])
    requires isoValid(day) && isoValid(day + time)
    ensures NormalizeDate(isoValid, day + time) == NormalizeDate(isoValid, day) == Some(day)
  {
    TrimUnchanged(day);
    var s := day + time;
    assert s[0] == day[0];
    assert s[|s| - 1] == if |time| > 0 then time[|time| - 1] else day[9];
    TrimUnchanged(s);
    assert s[..10] == day;
  }

  // ------------------------------------------------------------ numbers

  predicate IsNumberChar(c: char)
  {
    IsDigit(c) || c == '.' || c == '-'
  }

  /** `value.replace(/[^0-9.-]/g, '')`: keeps the digits, dots and minus signs, in order. */
  function Clean(s: string): (r: string)
    ensures forall k :: 0 <= k < |r| ==> IsNumberChar(r[k])
    decreases |s|
  {
    if |s| == 0 then ""
    else
      var rest := Clean(s[1..]);
      if IsNumberChar(s[0]) then [s[0]] + rest else rest
  }

  /** A string of digits, dots and minus signs is already clean. */
  lemma {:induction false} CleanKeeps(s: string)
    requires forall k :: 0 <= k < |s| ==> IsNumberChar(s[k])
    ensures Clean(s) == s
    decreases |s|
  {
    if |s| > 0 {
      CleanKeeps(s[1..]);
      assert s == [s[0]] + s[1..];
    }
  }

  lemma {:induction false} CleanAppend(a: string, b: string)
    ensures Clean(a + b) == Clean(a) + Clean(b)
    decreases |a|
  {
    if |a| > 0 {
      CleanAppend(a[1..], b);
      assert (a + b)[1..] == a[1..] + b;
    } else {
      assert a + b == b;
    }
  }

  /** `s` with every `c` removed. */
  function Without(s: string, c: char): string
    decreases |s|
  {
    if |s| == 0 then "" else (if s[0] == c then "" else [s[0]]) + Without(s[1..], c)
  }

  lemma {:induction false} WithoutAppend(a: string, b: string, c: char)
    ensures Without(a + b, c) == Without(a, c) + Without(b, c)
    decreases |a|
  {
    if |a| > 0 {
      WithoutAppend(a[1..], b, c);
      assert (a + b)[1..] == a[1..] + b;
    } else {
      assert a + b == b;
    }
  }

  lemma {:induction false} WithoutAbsent(s: string, c: char)
    requires c !in s
    ensures Without(s, c) == s
    decreases |s|
  {
    if |s| > 0 {
      WithoutAbsent(s[1..], c);
      assert s == [s[0]] + s[1..];
    }
  }

  /**
    `.replace(/(\..*?)\./g, '$1')`: each match runs from a dot to the next dot and loses the
    second one, and the scan resumes after it, so the 2nd, 4th, 6th ... dots are removed.
    After `Clean` there is no line terminator for `.*?` to stop at, so the scan below, which
    remembers whether a match is open, removes the same dots.
   */
  function CollapseDots(s: string): (r: string)
    ensures Without(r, '.') == Without(s, '.')
    ensures multiset(r)['.'] == (multiset(s)['.'] + 1) / 2
    ensures '.' !in s ==> r == s
  {
    DropPairedDotsCount(s, false);
    DropPairedDots(s, false)
  }

  /** The scan of `CollapseDots`; `open` says a dot has been kept and its partner not yet seen. */
  function DropPairedDots(s: string, open: bool): string
    decreases |s|
  {
    if |s| == 0 then ""
    else if s[0] != '.' then [s[0]] + DropPairedDots(s[1..], open)
    else if open then DropPairedDots(s[1..], false)
    else "." + DropPairedDots(s[1..], true)
  }

  lemma {:induction false} DropPairedDotsCount(s: string, open: bool)
    ensures Without(DropPairedDots(s, open), '.') == Without(s, '.')
    ensures multiset(DropPairedDots(s, open))['.'] == (multiset(s)['.'] + (if open then 0 else 1)) / 2
    ensures '.' !in s ==> DropPairedDots(s, open) == s
    decreases |s|
  {
    if |s| > 0 {
      var rest := s[1..];
      DropPairedDotsCount(rest, if s[0] == '.' then !open else open);
      assert s == [s[0]] + rest;
      assert multiset(s)['.'] == multiset(rest)['.'] + (if s[0] == '.' then 1 else 0);
    }
  }

  function Pow10(n: nat): (p: nat)
    ensures p >= 1
  {
    if n == 0 then 1 else 10 * Pow10(n - 1)
  }

  /** JavaScript's `Number(s)` on an unsigned decimal: digits, at most one dot, at least one digit. */
  function UnsignedDecimal(s: string): Option<real>
  {
    match IndexOf(s, ".")
    case None =>
      if |s| > 0 && AllDigits(s) then Some(DigitsValue(s) as real) else None
    case Some(i) =>
      var whole, frac := s[..i], s[i + 1..];
      if AllDigits(whole) && AllDigits(frac) && (|whole| > 0 || |frac| > 0) then
        Some(DecimalReading(whole, frac))
      else None
  }

  /** The value of the digits `whole`, a point and the digits `frac`. */
  function DecimalReading(whole: string, frac: string): real
    requires AllDigits(whole) && AllDigits(frac)
  {
    DigitsValue(whole) as real + DigitsValue(frac) as real / Pow10(|frac|) as real
  }

  /** JavaScript's `Number(s)` on a non-empty string of digits, dots and minus signs; `None` is NaN. */
  function DecimalValue(s: string): Option<real>
  {
    if |s| > 0 && s[0] == '-' then
      match UnsignedDecimal(s[1..])
      case None => None
      case Some(v) => Some(-v)
    else UnsignedDecimal(s)
  }

  /** `parseNumber`: total; 0 for a cell with no number in it. */
  function ParseNumber(raw: string): real
  {
    var cleaned := CollapseDots(Clean(raw));
    if cleaned == "" then 0.0
    else DecimalValue(cleaned).GetOr(0.0)
  }

  /** `String(n)` reads back as `n`. */
  lemma ParseNumberOfNat(n: nat)
    ensures ParseNumber(NatToString(n)) == n as real
  {
    var s := NatToString(n);
    CleanKeeps(s);
    NoDotCollapse(s);
    NatToStringValue(n);
  }

  lemma NoDotCollapse(s: string)
    requires AllDigits(s)
    ensures IndexOf(s, ".") == None && CollapseDots(s) == s
  {
    DigitsAvoidChars(s, ".");
    AvoidingNotContains(s, ".");
    IndexOfCharNone(s, '.');
    DropNoDots(s, false);
  }

  lemma {:induction false} DropNoDots(s: string, open: bool)
    requires '.' !in s
    ensures DropPairedDots(s, open) == s
    decreases |s|
  {
    if |s| > 0 {
      DropNoDots(s[1..], open);
    }
  }

  lemma {:induction false} DropDotFree(a: string, c: string, open: bool)
    requires '.' !in a
    ensures DropPairedDots(a + c, open) == a + DropPairedDots(c, open)
    decreases |a|
  {
    if |a| > 0 {
      assert (a + c)[1..] == a[1..] + c;
      DropDotFree(a[1..], c, open);
    } else {
      assert a + c == c;
    }
  }

  /**
    Which dot goes: the scan copies the dot-free run `a`, then keeps the dot that follows it
    when no match is open (and drops it when one is), and goes on with the flag flipped.
   */
  lemma DropPairedDotsFirstDot(a: string, c: string, open: bool)
    requires '.' !in a
    ensures DropPairedDots(a + "." + c, open) == a + (if open then "" else ".") + DropPairedDots(c, !open)
  {
    assert a + "." + c == a + ("." + c);
    DropDotFree(a, "." + c, open);
    assert ("." + c)[1..] == c;
  }

  /**
    `CollapseDots` keeps the first dot of each pair and drops the second, whatever follows;
    a lone last dot is kept.
   */
  lemma CollapseDotsPairs(a: string, b: string, c: string)
    requires '.' !in a && '.' !in b
    ensures CollapseDots(a + "." + b + "." + c) == a + "." + b + CollapseDots(c)
    ensures CollapseDots(a + "." + b) == a + "." + b
  {
    DropPair(a, b, c);
    DottedScan(a, b);
  }

  /** The scan keeps the first dot of a pair and drops the second. */
  lemma DropPair(a: string, b: string, c: string)
    requires '.' !in a && '.' !in b
    ensures DropPairedDots(a + "." + b + "." + c, false) == a + "." + b + DropPairedDots(c, false)
  {
    var tail := "." + b + "." + c;
    assert a + "." + b + "." + c == a + tail;
    DropDotFree(a, tail, false);
    assert tail[1..] == b + ("." + c);
    DropDotFree(b, "." + c, true);
    assert ("." + c)[1..] == c;
    assert a + "." + b + DropPairedDots(c, false) == a + ("." + (b + DropPairedDots(c, false)));
  }

  /** A plain decimal `whole.frac` reads as whole + frac / 10^|frac|. */
  lemma ParseNumberOfDecimal(whole: string, frac: string)
    requires |whole| > 0 && AllDigits(whole) && AllDigits(frac)
    ensures ParseNumber(whole + "." + frac) == DecimalReading(whole, frac)
  {
    var s := whole + "." + frac;
    CleanKeeps(s);
    SingleDotKept(whole, frac);
    ParseNumberOfClean(s);
    DecimalOfDigits(whole, frac);
  }

  lemma DecimalOfDigits(whole: string, frac: string)
    requires |whole| > 0 && AllDigits(whole) && AllDigits(frac)
    ensures DecimalValue(whole + "." + frac) == Some(DecimalReading(whole, frac))
  {
    var s := whole + "." + frac;
    DigitsAvoidChars(whole, ".");
    IndexOfAfter(whole, ".", frac);
    assert s[..|whole|] == whole;
    assert s[|whole| + 1..] == frac;
    assert s[0] == whole[0];
  }

  lemma ParseNumberOfClean(s: string)
    requires |s| > 0 && Clean(s) == s && CollapseDots(s) == s
    ensures ParseNumber(s) == DecimalValue(s).GetOr(0.0)
  {
  }

  lemma SingleDotKept(whole: string, frac: string)
    requires AllDigits(whole) && AllDigits(frac)
    ensures CollapseDots(whole + "." + frac) == whole + "." + frac
  {
    DigitsAvoidChars(whole, ".");
    AvoidingNotContains(whole, ".");
    IndexOfCharNone(whole, '.');
    DigitsAvoidChars(frac, ".");
    AvoidingNotContains(frac, ".");
    IndexOfCharNone(frac, '.');
    DropDotFree(whole, "." + frac, false);
    assert ("." + frac)[1..] == frac;
    DropNoDots(frac, true);
    assert whole + "." + frac == whole + ("." + frac);
  }

  /** Characters other than digits, dots and minus signs in front of a number are ignored. */
  lemma ParseNumberSkipsNoise(noise: string, s: string)
    requires forall k :: 0 <= k < |noise| ==> !IsNumberChar(noise[k])
    ensures ParseNumber(noise + s) == ParseNumber(s)
    ensures ParseNumber(s + noise) == ParseNumber(s)
  {
    CleanAppend(noise, s);
    CleanAppend(s, noise);
    NoNumberChars(noise);
    assert Clean(noise + s) == Clean(s);
    assert Clean(s + noise) == Clean(s);
    SameCleanSameNumber(noise + s, s);
    SameCleanSameNumber(s + noise, s);
  }

  lemma SameCleanSameNumber(x: string, y: string)
    requires Clean(x) == Clean(y)
    ensures ParseNumber(x) == ParseNumber(y)
  {
  }

  lemma {:induction false} NoNumberChars(s: string)
    requires forall k :: 0 <= k < |s| ==> !IsNumberChar(s[k])
    ensures Clean(s) == ""
    decreases |s|
  {
    if |s| > 0 {
      NoNumberChars(s[1..]);
    }
  }

  /** A currency cell with a thousands separator. */
  lemma ParseNumberCurrency()
    ensures ParseNumber("$1,234.56") == 1234.56
  {
    CurrencyClean("$1,234.56");
    CleanedCurrency("$1,234.56");
  }

  lemma CurrencyClean(x: string)
    requires x == "$1,234.56"
    ensures Clean(x) == "1234.56"
  {
    assert x == "$" + "1" + "," + "234.56";
    CleanSeparated("$", "1", ",", "234.56");
    assert "1" + "234.56" == "1234.56";
  }

  /** Noise and a separator between two clean runs leave just the two runs. */
  lemma CleanSeparated(noise: string, a: string, sep: string, b: string)
    requires forall k :: 0 <= k < |noise| ==> !IsNumberChar(noise[k])
    requires forall k :: 0 <= k < |sep| ==> !IsNumberChar(sep[k])
    requires forall k :: 0 <= k < |a| ==> IsNumberChar(a[k])
    requires forall k :: 0 <= k < |b| ==> IsNumberChar(b[k])
    ensures Clean(noise + a + sep + b) == a + b
  {
    var p := noise + a;
    var q := p + sep;
    NoNumberChars(noise);
    CleanKeeps(a);
    CleanAppend(noise, a);
    assert Clean(p) == a;
    NoNumberChars(sep);
    CleanAppend(p, sep);
    assert Clean(q) == a;
    CleanKeeps(b);
    CleanAppend(q, b);
  }

  lemma CleanedCurrency(x: string)
    requires Clean(x) == "1234.56"
    ensures ParseNumber(x) == 1234.56
  {
    CleanCurrencyValue("1234.56");
    CurrencyReading();
    CleanNumber();
    SameCleanSameNumber(x, "1234.56");
  }

  lemma CurrencyReading()
    ensures DecimalReading("1234", "56") == 1234.56
  {
    NatToStringValue(1234);
    NatToStringValue(56);
    assert NatToString(1234) == "1234" && NatToString(56) == "56";
  }

  lemma CleanNumber()
    ensures Clean("1234.56") == "1234.56"
  {
  }

  lemma CleanCurrencyValue(x: string)
    requires x == "1234.56"
    ensures ParseNumber(x) == DecimalReading("1234", "56")
  {
    assert x == "1234" + "." + "56";
    ParseNumberOfDecimal("1234", "56");
  }

  /** Two dots: the second goes, so "1.234.56" reads as 1.23456. */
  lemma ParseNumberSecondDotDropped()
    ensures ParseNumber("1.234.56") == 1.23456
  {
    SecondDotAt("1.234.56");
  }

  lemma SecondDotAt(x: string)
    requires x == "1.234.56"
    ensures ParseNumber(x) == 1.23456
  {
    assert x == "1" + "." + "234" + "." + "56";
    TwoDotsCollapse("1", "234", "56");
    assert "234" + "56" == "23456";
    SecondDotReading();
  }

  /** Digits with two dots read as the digits with the second dot removed. */
  lemma TwoDotsCollapse(a: string, b: string, c: string)
    requires |a| > 0 && AllDigits(a) && AllDigits(b) && AllDigits(c)
    ensures ParseNumber(a + "." + b + "." + c) == DecimalReading(a, b + c)
  {
    var s := a + "." + b + "." + c;
    var t := a + "." + (b + c);
    assert s == a + "." + (b + "." + c);
    DottedClean(b, c);
    DottedClean(a, b + "." + c);
    NoDotIn(a);
    NoDotIn(b);
    DropPair(a, b, c);
    NoDotIn(c);
    DropNoDots(c, false);
    assert a + "." + b + c == t;
    assert AllDigits(b + c);
    DottedClean(a, b + c);
    SingleDotKept(a, b + c);
    SameCollapsedSameNumber(s, t);
    ParseNumberOfDecimal(a, b + c);
  }

  lemma SecondDotReading()
    ensures DecimalReading("1", "23456") == 1.23456
  {
    NatToStringValue(1);
    NatToStringValue(23456);
    assert NatToString(1) == "1" && NatToString(23456) == "23456";
  }

  /** Three dots: the 2nd goes, leaving two, which JavaScript's `Number` rejects; the cell reads as 0. */
  lemma ParseNumberTwoDotsLeft()
    ensures ParseNumber("1.2.3.4") == 0.0
  {
    ThreeDotsAt("1.2.3.4");
  }

  lemma ThreeDotsAt(x: string)
    requires x == "1.2.3.4"
    ensures ParseNumber(x) == 0.0
  {
    assert x == "1" + "." + "2" + "." + ("3" + "." + "4");
    ThreeDotsRejected("1", "2", "3", "4");
  }

  /** Four runs of digits joined by three dots keep two of the dots, and two dots are not a number. */
  lemma ThreeDotsRejected(a: string, b: string, c: string, d: string)
    requires |a| > 0 && AllDigits(a) && AllDigits(b) && AllDigits(c) && AllDigits(d)
    ensures ParseNumber(a + "." + b + "." + (c + "." + d)) == 0.0
  {
    var t := a + "." + (b + c + "." + d);
    ThreeDotsCollapse(a, b, c, d);
    assert !AllDigits(b + c + "." + d) by {
      assert (b + c + "." + d)[|b + c|] == '.';
    }
    RejectedAfterDot(a, b + c + "." + d);
  }

  /** Of four runs of digits joined by three dots, the second dot goes. */
  lemma ThreeDotsCollapse(a: string, b: string, c: string, d: string)
    requires AllDigits(a) && AllDigits(b) && AllDigits(c) && AllDigits(d)
    ensures CollapseDots(Clean(a + "." + b + "." + (c + "." + d))) == a + "." + (b + c + "." + d)
  {
    ThreeDotsClean(a, b, c, d);
    NoDotIn(a);
    NoDotIn(b);
    NoDotIn(c);
    NoDotIn(d);
    ThreeDotsScan(a, b, c, d);
  }

  lemma ThreeDotsScan(a: string, b: string, c: string, d: string)
    requires '.' !in a && '.' !in b && '.' !in c && '.' !in d
    ensures DropPairedDots(a + "." + b + "." + (c + "." + d), false) == a + "." + (b + c + "." + d)
  {
    var e := c + "." + d;
    DottedScan(c, d);
    PairThenClean(a, b, e);
    DotsRegroup(a, b, c, d);
  }

  lemma PairThenClean(a: string, b: string, e: string)
    requires '.' !in a && '.' !in b && DropPairedDots(e, false) == e
    ensures DropPairedDots(a + "." + b + "." + e, false) == a + "." + b + e
  {
    DropPair(a, b, e);
  }

  lemma DotsRegroup(a: string, b: string, c: string, d: string)
    ensures a + "." + b + (c + "." + d) == a + "." + (b + c + "." + d)
  {
  }

  lemma ThreeDotsClean(a: string, b: string, c: string, d: string)
    requires AllDigits(a) && AllDigits(b) && AllDigits(c) && AllDigits(d)
    ensures Clean(a + "." + b + "." + (c + "." + d)) == a + "." + b + "." + (c + "." + d)
  {
    DottedClean(c, d);
    DottedClean(b, c + "." + d);
    DottedClean(a, b + "." + (c + "." + d));
    assert a + "." + b + "." + (c + "." + d) == a + "." + (b + "." + (c + "." + d));
  }

  /** A single dot between dot-free runs is kept. */
  lemma DottedScan(c: string, d: string)
    requires '.' !in c && '.' !in d
    ensures DropPairedDots(c + "." + d, false) == c + "." + d
  {
    DropDotFree(c, "." + d, false);
    assert ("." + d)[1..] == d;
    DropNoDots(d, true);
    assert c + "." + d == c + ("." + d);
  }

  /** A cleaned, collapsed string whose text after its first dot is not all digits reads as 0. */
  lemma RejectedAfterDot(a: string, rest: string)
    requires |a| > 0 && AllDigits(a) && !AllDigits(rest)
    ensures DecimalValue(a + "." + rest) == None
  {
    NoDotIn(a);
    DigitsAvoidChars(a, ".");
    IndexOfAfter(a, ".", rest);
    var s := a + "." + rest;
    assert s[..|a|] == a && s[|a| + 1..] == rest;
    assert s[0] == a[0];
  }

  lemma SameCollapsedSameNumber(x: string, y: string)
    requires CollapseDots(Clean(x)) == CollapseDots(Clean(y))
    ensures ParseNumber(x) == ParseNumber(y)
  {
  }

  /** Only digits, dots and minus signs. */
  predicate NumberChars(s: string)
  {
    forall k :: 0 <= k < |s| ==> IsNumberChar(s[k])
  }

  /** Two runs of digits, dots and minus signs around a dot are clean. */
  lemma DottedClean(a: string, b: string)
    requires NumberChars(a) && NumberChars(b)
    ensures NumberChars(a + "." + b) && Clean(a + "." + b) == a + "." + b
  {
    var s := a + "." + b;
    forall k | 0 <= k < |s| ensures IsNumberChar(s[k]) {
      if k < |a| {
        assert s[k] == a[k];
      } else if k > |a| {
        assert s[k] == b[k - |a| - 1];
      }
    }
    CleanKeeps(s);
  }

  lemma NoDotIn(s: string)
    requires AllDigits(s)
    ensures '.' !in s
  {
    forall k | 0 <= k < |s| ensures s[k] != '.' {
      assert IsDigit(s[k]);
    }
  }

  /** An empty cell and a cell without digits read as 0. */
  predicate NoDigits(s: string)
  {
    forall k :: 0 <= k < |s| ==> !IsDigit(s[k])
  }

  /** A cell without a digit reads as 0, whatever dots, minus signs or other text it holds. */
  lemma ParseNumberNoDigits(s: string)
    requires NoDigits(s)
    ensures ParseNumber(s) == 0.0
  {
    var cleaned := Clean(s);
    CleanNoDigits(s);
    DropNoDigits(cleaned, false);
    var collapsed := CollapseDots(cleaned);
    if collapsed != "" {
      if collapsed[0] == '-' {
        UnsignedNoDigits(collapsed[1..]);
      } else {
        UnsignedNoDigits(collapsed);
      }
    }
  }

  lemma {:induction false} CleanNoDigits(s: string)
    requires NoDigits(s)
    ensures NoDigits(Clean(s))
    decreases |s|
  {
    if |s| > 0 {
      CleanNoDigits(s[1..]);
    }
  }

  lemma {:induction false} DropNoDigits(s: string, open: bool)
    requires NoDigits(s)
    ensures NoDigits(DropPairedDots(s, open))
    decreases |s|
  {
    if |s| > 0 {
      DropNoDigits(s[1..], if s[0] == '.' then !open else open);
    }
  }

  /** Without a digit, neither the whole part nor the fraction can be non-empty. */
  lemma UnsignedNoDigits(s: string)
    requires NoDigits(s)
    ensures UnsignedDecimal(s) == None
  {
    match IndexOf(s, ".")
    case None =>
      if |s| > 0 {
        assert !IsDigit(s[0]);
      }
    case Some(i) =>
      IndexOfCharSome(s, '.', i);
      if i > 0 {
        assert !IsDigit(s[..i][0]);
      }
      if i + 1 < |s| {
        assert !IsDigit(s[i + 1..][0]);
      }
  }

  lemma ParseNumberEmpty()
    ensures ParseNumber("") == 0.0 && ParseNumber("abc") == 0.0 && ParseNumber("-") == 0.0
  {
    assert Clean("abc") == "";
    assert Clean("-") == "-";
    assert CollapseDots("-") == "-" by {
      assert DropPairedDots("-", false) == "-";
    }
    assert IndexOf("", ".") == None;
  }
}
