/**
 * Checkpoint file names (Crawler.js `saveState`, line 267) and how `initOrResumeState` reads
 * the iteration number back out of one (line 279).
 */
module Checkpoint {
  import opened Wrappers
  import opened Text

  predicate IsDigit(c: char)
  {
    '0' <= c <= '9'
  }

  predicate AllDigits(s: string)
  {
    forall i :: 0 <= i < |s| ==> IsDigit(s[i])
  }

  function DigitChar(d: nat): (c: char)
    requires d < 10
    ensures IsDigit(c)
  {
    "0123456789"[d]
  }

  /** The decimal digits of a non-negative integer, without leading zeros. */
  function Digits(n: nat): (s: string)
    ensures |s| >= 1 && AllDigits(s)
    ensures |s| > 1 ==> s[0] != '0'
  {
    if n < 10 then [DigitChar(n)] else Digits(n / 10) + [DigitChar(n % 10)]
  }

  /** `Number.MAX_SAFE_INTEGER`, 2^53 - 1: every integer up to it in magnitude is a JavaScript
      number of its own, and `toString` writes its decimal digits. */
  const MaxSafeInteger: nat := 0x1F_FFFF_FFFF_FFFF

  /** `n.toString()` for an integer `n` with `|n| <= MaxSafeInteger`; past that bound it still
      writes the exact digits, which JavaScript does not (see `StateFileNameRoundTrip`). */
  function NumberToString(n: int): string
  {
    if n < 0 then "-" + Digits(-n) else Digits(n)
  }

  /** `k` copies of `c`. */
  function Repeat(c: char, k: nat): (r: string)
    ensures |r| == k
    ensures forall i :: 0 <= i < k ==> r[i] == c
  {
    seq(k, _ => c)
  }

  /** `s.padStart(width, fill)`: `fill` repeated in front up to `width` characters. */
  function PadStart(s: string, width: nat, fill: char): (r: string)
    ensures |r| == if |s| >= width then |s| else width
    ensures forall i :: 0 <= i < |s| ==> r[|r| - |s| + i] == s[i]
    ensures forall i :: 0 <= i < |r| - |s| ==> r[i] == fill
  {
    if |s| >= width then s else Repeat(fill, width - |s|) + s
  }

  /** `state_${iterNum.toString().padStart(6, "0")}.json`. */
  function StateFileName(iterNum: int): string
  {
    "state_" + PadStart(NumberToString(iterNum), 6, '0') + ".json"
  }

  function DigitValue(c: char): nat
  {
    if IsDigit(c) then (c as int) - ('0' as int) else 0
  }

  /** The number a string of decimal digits denotes. */
  function DigitsValue(s: string): nat
  {
    if |s| == 0 then 0 else 10 * DigitsValue(s[..|s| - 1]) + DigitValue(s[|s| - 1])
  }

  predicate IsHexDigit(c: char)
  {
    IsDigit(c) || 'a' <= c <= 'f' || 'A' <= c <= 'F'
  }

  function HexDigitValue(c: char): nat
  {
    if IsDigit(c) then DigitValue(c)
    else if 'a' <= c <= 'f' then (c as int) - ('a' as int) + 10
    else if 'A' <= c <= 'F' then (c as int) - ('A' as int) + 10
    else 0
  }

  function HexValue(s: string): nat
  {
    if |s| == 0 then 0 else 16 * HexValue(s[..|s| - 1]) + HexDigitValue(s[|s| - 1])
  }

  /** The longest prefix of `s` whose characters all satisfy `p`. */
  function PrefixWhile(s: string, p: char -> bool): (r: string)
    ensures |r| <= |s| && r == s[..|r|]
    ensures forall i :: 0 <= i < |r| ==> p(r[i])
    ensures |r| < |s| ==> !p(s[|r|])
    decreases |s|
  {
    if |s| > 0 && p(s[0]) then [s[0]] + PrefixWhile(s[1..], p) else []
  }

  /** A leading minus sign. */
  predicate HasMinus(t: string)
  {
    |t| > 0 && t[0] == '-'
  }

  /** What follows a leading sign, when there is one. */
  function Unsigned(t: string): string
  {
    if |t| > 0 && (t[0] == '-' || t[0] == '+') then t[1..] else t
  }

  /** The unsigned part of `parseInt`: hexadecimal digits after `0x`/`0X`, otherwise the longest
      run of decimal digits; `None` when there are none. */
  function ParseMagnitude(rest: string): Option<nat>
  {
    if |rest| >= 2 && rest[0] == '0' && (rest[1] == 'x' || rest[1] == 'X') then
      var h := PrefixWhile(rest[2..], IsHexDigit);
      if |h| == 0 then None else Some(HexValue(h))
    else
      var d := PrefixWhile(rest, IsDigit);
      if |d| == 0 then None else Some(DigitsValue(d))
  }

  /** `parseInt(s)` with no radix: leading whitespace skipped, an optional sign, then the
      magnitude; `None` stands for `NaN`. */
  function ParseInt(s: string): (r: Option<int>)
  {
    var t := TrimStart(s);
    match ParseMagnitude(Unsigned(t))
    case None => None
    case Some(m) => Some(if HasMinus(t) then 0 - m else m as int)
  }

  /** `stateFile.split("_").pop().split(".")[0]`: the text after the last `_`, up to its first `.`. */
  function IterField(stateFile: string): string
  {
    var parts := Split(stateFile, '_');
    Split(parts[|parts| - 1], '.')[0]
  }

  /** `parseInt(stateFile.split("_").pop().split(".")[0])`. */
  function ParseIterNum(stateFile: string): Option<int>
  {
    ParseInt(IterField(stateFile))
  }

  lemma {:induction false} DigitsValueOfDigits(n: nat)
    ensures DigitsValue(Digits(n)) == n
    decreases n
  {
    if n >= 10 {
      DigitsValueOfDigits(n / 10);
      var s := Digits(n / 10) + [DigitChar(n % 10)];
      assert s[..|s| - 1] == Digits(n / 10);
    }
  }

  /** Leading zeros do not change the value of a digit string. */
  lemma {:induction false} DigitsValueLeadingZero(s: string)
    ensures DigitsValue("0" + s) == DigitsValue(s)
    decreases |s|
  {
    if |s| > 0 {
      assert ("0" + s)[..|"0" + s| - 1] == "0" + s[..|s| - 1];
      DigitsValueLeadingZero(s[..|s| - 1]);
    }
  }

  /** Any number of leading zeros leaves the value of a digit string unchanged. */
  lemma {:induction false} ZerosPrefixValue(k: nat, s: string)
    ensures DigitsValue(Repeat('0', k) + s) == DigitsValue(s)
    decreases k
  {
    if k > 0 {
      assert Repeat('0', k) + s == Repeat('0', k - 1) + ("0" + s);
      ZerosPrefixValue(k - 1, "0" + s);
      DigitsValueLeadingZero(s);
    } else {
      assert Repeat('0', k) + s == s;
    }
  }

  lemma PadStartValue(s: string, width: nat)
    requires AllDigits(s)
    ensures AllDigits(PadStart(s, width, '0'))
    ensures DigitsValue(PadStart(s, width, '0')) == DigitsValue(s)
  {
    var r := PadStart(s, width, '0');
    if |s| < width {
      ZerosPrefixValue(width - |s|, s);
    }
    forall i | 0 <= i < |r|
      ensures IsDigit(r[i])
    {
      if i >= |r| - |s| {
        assert r[i] == s[i - (|r| - |s|)];
      }
    }
  }

  /** The number field of a checkpoint name is whatever sits between `state_` and `.json`, as long
      as it holds no `_` and no `.`, whatever directory the name is placed in. */
  lemma {:induction false} NumberField(outputDir: string, p: string)
    requires '_' !in p && '.' !in p
    ensures IterField(Join(outputDir, "state_" + p + ".json")) == p
  {
    var tail := p + ".json";
    assert Join(outputDir, "state_" + p + ".json") == (outputDir + "/state") + ['_'] + tail;
    assert tail == p + ['.'] + "json";
    SplitLast(outputDir + "/state", tail, '_');
    SplitFirst(p, "json", '.');
  }

  lemma TrimStartOfDigits(p: string)
    requires |p| > 0 && AllDigits(p)
    ensures TrimStart(p) == p
  {
    assert !IsWhitespace(p[0]);
  }

  lemma MagnitudeOfDigits(p: string)
    requires |p| > 0 && AllDigits(p)
    ensures ParseMagnitude(p) == Some(DigitsValue(p))
  {
    assert !(|p| >= 2 && p[1] == 'x') && !(|p| >= 2 && p[1] == 'X') by {
      if |p| >= 2 { assert IsDigit(p[1]); }
    }
    assert PrefixWhile(p, IsDigit) == p;
  }

  /** `parseInt` reads a non-empty digit string as its decimal value. */
  lemma ParseDigits(p: string)
    requires |p| > 0 && AllDigits(p)
    ensures ParseInt(p) == Some(DigitsValue(p))
  {
    TrimStartOfDigits(p);
    assert Unsigned(p) == p && !HasMinus(p) by {
      assert IsDigit(p[0]);
    }
    MagnitudeOfDigits(p);
  }

  /** The name of the checkpoint for a non-negative iteration, placed in any directory, reads
      back as that iteration. Beyond `MaxSafeInteger` the iteration is no exact JavaScript number,
      and from 10^21 on `toString` writes it in exponent form (`1e+21` reads back as 1). */
  lemma StateFileNameRoundTrip(outputDir: string, iterNum: nat)
    requires iterNum <= MaxSafeInteger
    ensures ParseIterNum(Join(outputDir, StateFileName(iterNum))) == Some(iterNum)
  {
    var p := PadStart(NumberToString(iterNum), 6, '0');
    PadStartValue(Digits(iterNum), 6);
    DigitsValueOfDigits(iterNum);
    assert '_' !in p && '.' !in p by {
      assert forall i :: 0 <= i < |p| ==> IsDigit(p[i]);
    }
    NumberField(outputDir, p);
    ParseDigits(p);
  }

  lemma {:induction false} ZerosValue(s: string)
    requires forall i :: 0 <= i < |s| ==> s[i] == '0'
    ensures DigitsValue(s) == 0
    decreases |s|
  {
    if |s| > 0 {
      ZerosValue(s[..|s| - 1]);
    }
  }

  lemma {:induction false} FewDigits(n: nat, k: nat)
    requires 1 <= k <= 4
    requires n < if k == 1 then 10 else if k == 2 then 100 else if k == 3 then 1000 else 10000
    ensures |Digits(n)| <= k
    decreases k
  {
    if n >= 10 {
      FewDigits(n / 10, k - 1);
    }
  }

  /** `parseInt` stops at the first character that is not a digit: zeros followed by a minus sign
      read as 0. */
  lemma ParseZerosThenMinus(p: string, k: nat)
    requires 1 <= k < |p| && p[k] == '-'
    requires forall i :: 0 <= i < k ==> p[i] == '0'
    ensures ParseInt(p) == Some(0)
  {
    assert TrimStart(p) == p by {
      assert p[0] == '0';
    }
    assert Unsigned(p) == p && !HasMinus(p) by {
      assert p[0] == '0';
    }
    assert p[1] != 'x' && p[1] != 'X' by {
      if k > 1 { assert p[1] == '0'; } else { assert p[1] == '-'; }
    }
    var d := PrefixWhile(p, IsDigit);
    assert |d| == k by {
      assert !IsDigit(p[k]);
      assert forall i :: 0 <= i < k ==> IsDigit(p[i]);
    }
    ZerosValue(d);
  }

  /** The padded name of a negative iteration of up to four digits: zeros, the minus sign, digits. */
  lemma NegativePadding(n: int)
    requires 0 < n < 10000
    ensures var p := PadStart(NumberToString(-n), 6, '0');
      var k := 5 - |Digits(n)|;
      && 1 <= k < |p| && p[k] == '-'
      && (forall i :: 0 <= i < k ==> p[i] == '0')
      && (forall i :: k < i < |p| ==> IsDigit(p[i]))
  {
    var digits := NumberToString(-n);
    assert digits == "-" + Digits(n);
    FewDigits(n, 4);
    var p := PadStart(digits, 6, '0');
    var k := |p| - |digits|;
    assert p[k] == digits[0] == '-';
    forall i | k < i < |p|
      ensures IsDigit(p[i])
    {
      assert p[i] == digits[i - k] == Digits(n)[i - k - 1];
    }
  }

  /** A negative iteration of up to four digits does not survive: its padded name, such as
      `0000-5`, holds zeros up to the minus sign, and `parseInt` reads it back as 0. */
  lemma NegativeIterNumReadsAsZero(outputDir: string, n: int)
    requires 0 < n < 10000
    ensures ParseIterNum(Join(outputDir, StateFileName(-n))) == Some(0)
  {
    var p := PadStart(NumberToString(-n), 6, '0');
    var k := 5 - |Digits(n)|;
    NegativePadding(n);
    assert '_' !in p && '.' !in p by {
      forall i | 0 <= i < |p|
        ensures p[i] != '_' && p[i] != '.'
      {
        if i > k {
          assert IsDigit(p[i]);
        }
      }
    }
    NumberField(outputDir, p);
    ParseZerosThenMinus(p, k);
  }
}
