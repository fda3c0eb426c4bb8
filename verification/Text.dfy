/**
  Character classes and the small string operations of JavaScript that the
  contest code relies on: decimal digits, zero-padded numbers, Number-to-String,
  whitespace as regular expressions and String.prototype.trim see it, and
  replacing the first occurrence of a pattern.
*/
module Text {
  import opened Wrappers

  predicate IsDigit(c: char) {
    '0' <= c <= '9'
  }

  predicate AllDigits(s: string) {
    forall i :: 0 <= i < |s| ==> IsDigit(s[i])
  }

  /** A word character of a regular expression's `\w`. */
  predicate IsWordChar(c: char) {
    IsDigit(c) || 'a' <= c <= 'z' || 'A' <= c <= 'Z' || c == '_'
  }

  /** ECMAScript WhiteSpace and LineTerminator: what `\s` and trim() match. */
  predicate IsSpace(c: char) {
    var k := c as int;
    k == 0x09 || k == 0x0A || k == 0x0B || k == 0x0C || k == 0x0D || k == 0x20
    || k == 0xA0 || k == 0x1680 || 0x2000 <= k <= 0x200A || k == 0x2028 || k == 0x2029
    || k == 0x202F || k == 0x205F || k == 0x3000 || k == 0xFEFF
  }

  predicate NoSpace(s: string) {
    forall i :: 0 <= i < |s| ==> !IsSpace(s[i])
  }

  predicate AllSpace(s: string) {
    forall i :: 0 <= i < |s| ==> IsSpace(s[i])
  }

  lemma NoSpaceConcat(a: string, b: string)
    requires NoSpace(a) && NoSpace(b)
    ensures NoSpace(a + b)
  {
    forall i | 0 <= i < |a + b|
      ensures !IsSpace((a + b)[i])
    {
      if i >= |a| {
        assert (a + b)[i] == b[i - |a|];
      }
    }
  }

  /** Digits are neither whitespace nor the separators the date patterns use. */
  lemma DigitsPlain(x: string)
    requires AllDigits(x)
    ensures NoSpace(x) && ',' !in x && '/' !in x && ':' !in x
  {
    forall i | 0 <= i < |x|
      ensures !IsSpace(x[i]) && x[i] != ',' && x[i] != '/' && x[i] != ':'
    {
      assert IsDigit(x[i]);
    }
  }

  function DigitChar(d: int): char
    requires 0 <= d < 10
  {
    (('0' as int) + d) as char
  }

  function DigitValue(c: char): int
    requires IsDigit(c)
  {
    c as int - '0' as int
  }

  /** The number a string of decimal digits denotes. */
  function DigitsValue(s: string): nat
    requires AllDigits(s)
  {
    if s == [] then 0 else DigitsValue(s[..|s| - 1]) * 10 + DigitValue(s[|s| - 1])
  }

  /** The value of a two-digit string. */
  lemma TwoDigitsValue(s: string)
    requires |s| == 2 && AllDigits(s)
    ensures DigitsValue(s) == DigitValue(s[0]) * 10 + DigitValue(s[1])
  {
    var p := s[..1];
    assert p[..0] == [] && p[0] == s[0];
    assert DigitsValue(p) == DigitValue(s[0]);
  }

  function Pow10(n: nat): nat {
    if n == 0 then 1 else 10 * Pow10(n - 1)
  }

  /** The last `width` decimal digits of `n`, zero-padded on the left. */
  function Padded(n: int, width: nat): (r: string)
    ensures |r| == width && AllDigits(r)
    decreases width
  {
    if width == 0 then [] else Padded(n / 10, width - 1) + [DigitChar(n % 10)]
  }

  /** Reading a padded number back gives the number when it fits in the width. */
  lemma {:induction false} PaddedValue(n: int, width: nat)
    requires 0 <= n < Pow10(width)
    ensures DigitsValue(Padded(n, width)) == n
  {
    if width > 0 {
      PaddedValue(n / 10, width - 1);
      var p := Padded(n, width);
      assert p[..|p| - 1] == Padded(n / 10, width - 1);
    }
  }

  /** Number-to-String of a non-negative integer: its decimal digits, no leading zero. */
  function NatText(n: nat): (r: string)
    ensures |r| >= 1 && AllDigits(r)
  {
    if n < 10 then [DigitChar(n)] else NatText(n / 10) + [DigitChar(n % 10)]
  }

  /** Number-to-String of an integer, with a leading minus sign when negative. */
  function IntText(n: int): string {
    if n < 0 then "-" + NatText(-n) else NatText(n)
  }

  /** NatText is read back by DigitsValue and never starts with a superfluous zero. */
  lemma {:induction false} NatTextValue(n: nat)
    ensures DigitsValue(NatText(n)) == n
    ensures |NatText(n)| > 1 ==> NatText(n)[0] != '0'
  {
    if n >= 10 {
      NatTextValue(n / 10);
      var r := NatText(n);
      assert r[..|r| - 1] == NatText(n / 10);
    }
  }

  /** String.prototype.replace with a string pattern (or a one-character regular expression without the g flag): only the first occurrence changes. */
  function ReplaceFirst(s: string, pat: string, rep: string): string
    requires |pat| > 0
  {
    if |s| < |pat| then s
    else if s[..|pat|] == pat then rep + s[|pat|..]
    else [s[0]] + ReplaceFirst(s[1..], pat, rep)
  }

  /** When the pattern's first character does not occur before it, the occurrence that is replaced is the one after `a`. */
  lemma {:induction false} ReplaceFirstAfter(a: string, pat: string, rep: string, b: string)
    requires |pat| > 0 && pat[0] !in a
    ensures ReplaceFirst(a + pat + b, pat, rep) == a + rep + b
  {
    if a == [] {
      assert a + pat + b == pat + b;
      assert (pat + b)[..|pat|] == pat;
      assert (pat + b)[|pat|..] == b;
    } else {
      var s := a + pat + b;
      assert s[0] == a[0] && s[0] != pat[0];
      assert s[1..] == a[1..] + pat + b;
      ReplaceFirstAfter(a[1..], pat, rep, b);
      assert [a[0]] + (a[1..] + rep + b) == a + rep + b;
    }
  }

  /** A pattern that does not occur leaves the string unchanged. */
  lemma {:induction false} ReplaceFirstAbsent(s: string, c: char, rep: string)
    requires c !in s
    ensures ReplaceFirst(s, [c], rep) == s
  {
    if |s| >= 1 {
      assert s[..1] != [c] by { assert s[..1][0] == s[0]; }
      ReplaceFirstAbsent(s[1..], c, rep);
      assert [s[0]] + s[1..] == s;
    }
  }

  /** Leading whitespace removed (the first half of String.prototype.trim). */
  function TrimStart(s: string): (r: string)
    ensures |r| <= |s| && r == s[|s| - |r|..]
    ensures r == [] || !IsSpace(r[0])
  {
    if s != [] && IsSpace(s[0]) then TrimStart(s[1..]) else s
  }

  /** Trailing whitespace removed (the second half of String.prototype.trim). */
  function TrimEnd(s: string): (r: string)
    ensures |r| <= |s| && r == s[..|r|]
    ensures r == [] || !IsSpace(r[|r| - 1])
  {
    if s != [] && IsSpace(s[|s| - 1]) then TrimEnd(s[..|s| - 1]) else s
  }

  /** What TrimStart removes is whitespace only. */
  lemma {:induction false} TrimStartDrops(s: string)
    ensures AllSpace(s[..|s| - |TrimStart(s)|])
  {
    if s != [] && IsSpace(s[0]) {
      TrimStartDrops(s[1..]);
      var k := |s| - |TrimStart(s)|;
      forall i | 0 <= i < k
        ensures IsSpace(s[..k][i])
      {
        if i > 0 {
          assert s[..k][i] == s[1..][..k - 1][i - 1];
        }
      }
    }
  }

  /** What TrimEnd removes is whitespace only. */
  lemma {:induction false} TrimEndDrops(s: string)
    ensures AllSpace(s[|TrimEnd(s)|..])
  {
    if s != [] && IsSpace(s[|s| - 1]) {
      var p := s[..|s| - 1];
      TrimEndDrops(p);
      var k := |TrimEnd(s)|;
      forall i | 0 <= i < |s| - k
        ensures IsSpace(s[k..][i])
      {
        if k + i < |s| - 1 {
          assert s[k..][i] == p[k..][i];
        }
      }
    }
  }

  /** String.prototype.trim: whitespace and line terminators removed from both ends. */
  function Trim(s: string): string {
    TrimEnd(TrimStart(s))
  }

  /** A string that neither starts nor ends with whitespace is its own trim. */
  lemma TrimUnchanged(s: string)
    requires s == [] || (!IsSpace(s[0]) && !IsSpace(s[|s| - 1]))
    ensures Trim(s) == s
  {
  }

  /** String.prototype.split with a one-character separator. */
  function Split(s: string, sep: char): (r: seq<string>)
    ensures |r| >= 1
  {
    if s == [] then [""]
    else
      var rest := Split(s[1..], sep);
      if s[0] == sep then [""] + rest else [[s[0]] + rest[0]] + rest[1..]
  }

  /** Array.prototype.join with a one-character separator. */
  function Join(parts: seq<string>, sep: char): string
    requires |parts| >= 1
  {
    if |parts| == 1 then parts[0] else parts[0] + [sep] + Join(parts[1..], sep)
  }

  /** Joining the pieces of a split gives back the string; no piece holds the separator. */
  lemma {:induction false} SplitJoin(s: string, sep: char)
    ensures Join(Split(s, sep), sep) == s
    ensures forall i :: 0 <= i < |Split(s, sep)| ==> sep !in Split(s, sep)[i]
  {
    if s != [] {
      SplitJoin(s[1..], sep);
      var rest := Split(s[1..], sep);
      if s[0] == sep {
        assert Split(s, sep)[1..] == rest;
      } else {
        var r := Split(s, sep);
        if |rest| == 1 {
          assert Join(r, sep) == [s[0]] + rest[0];
        } else {
          assert r[1..] == rest[1..];
          assert Join(r, sep) == [s[0]] + (rest[0] + [sep] + Join(rest[1..], sep));
        }
        assert [s[0]] + s[1..] == s;
        forall i | 0 <= i < |r|
          ensures sep !in r[i]
        {
          if i > 0 {
            assert r[i] == rest[i];
          }
        }
      }
    }
  }

  /**
    Number applied to a string (StringToNumber): surrounding whitespace is
    ignored, the empty string is 0, and an optionally signed run of decimal
    digits is its value. None stands for NaN and also for the numeric forms
    this model does not read (fractions, exponents, hexadecimal, Infinity).
  */
  function StringToNumber(s: string): Option<int> {
    var t := Trim(s);
    if t == [] then Some(0)
    else if (t[0] == '+' || t[0] == '-') && |t| > 1 && AllDigits(t[1..]) then
      var magnitude: int := DigitsValue(t[1..]);
      Some(if t[0] == '-' then -magnitude else magnitude)
    else if AllDigits(t) then Some(DigitsValue(t))
    else None
  }

  /** Number-to-String writes no surrounding whitespace. */
  lemma IntTextTrimmed(n: int)
    ensures Trim(IntText(n)) == IntText(n)
  {
    var digits := NatText(if n < 0 then -n else n);
    assert !IsSpace(digits[0]) && !IsSpace(digits[|digits| - 1]);
    if n < 0 {
      var t := "-" + digits;
      assert t[|t| - 1] == digits[|digits| - 1];
      TrimUnchanged(t);
    } else {
      TrimUnchanged(digits);
    }
  }

  /** Number reads back what Number-to-String wrote. */
  lemma StringToNumberOfIntText(n: int)
    ensures StringToNumber(IntText(n)) == Some(n)
  {
    IntTextTrimmed(n);
    var t := IntText(n);
    if n < 0 {
      NatTextValue(-n);
      assert t[1..] == NatText(-n);
    } else {
      NatTextValue(n);
    }
  }

  /** The value of a four-digit string. */
  lemma FourDigitsValue(s: string)
    requires |s| == 4 && AllDigits(s)
    ensures DigitsValue(s) == DigitValue(s[0]) * 1000 + DigitValue(s[1]) * 100 + DigitValue(s[2]) * 10 + DigitValue(s[3])
  {
    var p3, p2 := s[..3], s[..2];
    assert p3[..2] == p2 && p3[2] == s[2] && p2[0] == s[0] && p2[1] == s[1];
    assert DigitsValue(s) == DigitsValue(p3) * 10 + DigitValue(s[3]);
    assert DigitsValue(p3) == DigitsValue(p2) * 10 + DigitValue(s[2]);
    TwoDigitsValue(p2);
  }

  /** A number with exactly `width` digits is written with exactly `width` digits. */
  lemma {:induction false} NatTextPadded(n: nat, width: nat)
    requires width >= 1 && Pow10(width - 1) <= n < Pow10(width)
    ensures NatText(n) == Padded(n, width)
  {
    if width == 1 {
      assert Padded(n / 10, 0) == [];
    } else {
      NatTextPadded(n / 10, width - 1);
    }
  }

  /** Four-digit numbers are written with exactly four digits. */
  lemma NatTextFourDigits(n: nat)
    requires 1000 <= n <= 9999
    ensures NatText(n) == Padded(n, 4)
  {
    assert Pow10(3) == 1000 && Pow10(4) == 10000;
    NatTextPadded(n, 4);
  }
}
