/** Character and string helpers shared by the PHP server and the two browser clients:
    decimal rendering and parsing, zero padding, trimming, ASCII lower-casing and splitting. */
module Text {

  // ---------------------------------------------------------------------------
  // Decimal digits
  // ---------------------------------------------------------------------------

  predicate IsDigit(c: char) {
    '0' <= c <= '9'
  }

  predicate AllDigits(s: string) {
    forall i :: 0 <= i < |s| ==> IsDigit(s[i])
  }

  function DigitChar(d: nat): (c: char)
    requires d < 10
    ensures IsDigit(c)
  {
    (('0' as int) + d) as char
  }

  function DigitValue(c: char): (d: nat)
    requires IsDigit(c)
    ensures d < 10 && DigitChar(d) == c
  {
    (c as int) - ('0' as int)
  }

  function Pow10(k: nat): (p: nat)
    ensures p >= 1
  {
    if k == 0 then 1 else 10 * Pow10(k - 1)
  }

  /** `String(n)` for a non-negative integer: shortest decimal form, no leading zeros. */
  function NatToStr(n: nat): (s: string)
    ensures |s| >= 1 && AllDigits(s)
  {
    if n < 10 then [DigitChar(n)] else NatToStr(n / 10) + [DigitChar(n % 10)]
  }

  /** `String(i)` for any integer: a minus sign for negative values. */
  function IntToStr(i: int): string {
    if i < 0 then "-" + NatToStr(-i) else NatToStr(i)
  }

  /** The last `k` decimal digits of `n`, zero-padded to exactly `k` characters. */
  function FixedDigits(n: nat, k: nat): (s: string)
    ensures |s| == k && AllDigits(s)
  {
    if k == 0 then "" else FixedDigits(n / 10, k - 1) + [DigitChar(n % 10)]
  }

  /** Value of a string of decimal digits (leading zeros allowed; the empty string is 0). */
  function ParseDigits(s: string): nat
    requires AllDigits(s)
  {
    if |s| == 0 then 0 else ParseDigits(s[..|s| - 1]) * 10 + DigitValue(s[|s| - 1])
  }

  function Repeat(c: char, n: nat): (s: string)
    ensures |s| == n && forall i :: 0 <= i < n ==> s[i] == c
  {
    seq(n, _ => c)
  }

  /** `s.padStart(k, c)`: prefix copies of `c` until the length reaches `k`. */
  function PadStart(s: string, k: nat, c: char): (r: string)
    ensures |r| == if |s| >= k then |s| else k
    ensures r[|r| - |s|..] == s
    ensures forall i :: 0 <= i < |r| - |s| ==> r[i] == c
  {
    if |s| >= k then s else Repeat(c, k - |s|) + s
  }

  lemma {:induction false} ParseFixedDigits(n: nat, k: nat)
    requires n < Pow10(k)
    ensures ParseDigits(FixedDigits(n, k)) == n
  {
    if k > 0 {
      var s := FixedDigits(n, k);
      assert Pow10(k) == 10 * Pow10(k - 1);
      assert n / 10 < Pow10(k - 1);
      assert s[..|s| - 1] == FixedDigits(n / 10, k - 1);
      assert DigitValue(s[|s| - 1]) == n % 10;
      ParseFixedDigits(n / 10, k - 1);
      assert ParseDigits(s) == (n / 10) * 10 + n % 10;
    }
  }

  lemma {:induction false} FixedDigitsOfParse(s: string)
    requires AllDigits(s)
    ensures ParseDigits(s) < Pow10(|s|)
    ensures FixedDigits(ParseDigits(s), |s|) == s
  {
    if |s| > 0 {
      var p := s[..|s| - 1];
      FixedDigitsOfParse(p);
      var v := ParseDigits(s);
      assert v / 10 == ParseDigits(p) && v % 10 == DigitValue(s[|s| - 1]);
      assert s == p + [s[|s| - 1]];
    }
  }

  lemma {:induction false} FixedDigitsZero(k: nat)
    ensures FixedDigits(0, k) == Repeat('0', k)
  {
    if k > 0 {
      FixedDigitsZero(k - 1);
    }
  }

  lemma PadStartAppend(s: string, x: char, k: nat)
    requires k >= 1
    ensures PadStart(s + [x], k, '0') == PadStart(s, k - 1, '0') + [x]
  {
  }

  /** `String(n).padStart(k, '0')` is the fixed-width rendering whenever `n` has at most `k` digits. */
  lemma {:induction false} PaddedNatToStr(n: nat, k: nat)
    requires k >= 1 && n < Pow10(k)
    ensures PadStart(NatToStr(n), k, '0') == FixedDigits(n, k)
  {
    if n < 10 {
      FixedDigitsZero(k - 1);
      assert FixedDigits(n, k) == FixedDigits(0, k - 1) + [DigitChar(n)];
    } else {
      assert k >= 2;
      PadStartAppend(NatToStr(n / 10), DigitChar(n % 10), k);
      PaddedNatToStr(n / 10, k - 1);
    }
  }

  /** A number with exactly `k` digits is rendered by `String(n)` without padding. */
  lemma {:induction false} NatToStrExactWidth(n: nat, k: nat)
    requires k >= 1 && Pow10(k - 1) <= n < Pow10(k)
    ensures NatToStr(n) == FixedDigits(n, k)
  {
    if k == 1 {
      assert n < 10;
    } else {
      assert n >= 10;
      NatToStrExactWidth(n / 10, k - 1);
    }
  }

  // ---------------------------------------------------------------------------
  // Trimming
  // ---------------------------------------------------------------------------

  /** Characters removed by PHP's `trim` with its default character list. */
  predicate PhpSpace(c: char) {
    c == ' ' || c == '\t' || c == '\n' || c == '\r' || c == '\0' || c == '\U{B}'
  }

  /** Characters removed by JavaScript's `String.prototype.trim` and matched by `\s` in a regular expression. */
  predicate JsSpace(c: char) {
    || c == '\t' || c == '\n' || c == '\U{B}' || c == '\U{C}' || c == '\r' || c == ' '
    || c == '\U{A0}' || c == '\U{1680}' || ('\U{2000}' <= c <= '\U{200A}')
    || c == '\U{2028}' || c == '\U{2029}' || c == '\U{202F}' || c == '\U{205F}' || c == '\U{3000}' || c == '\U{FEFF}'
  }

  function TrimStart(s: string, space: char -> bool): string {
    if |s| > 0 && space(s[0]) then TrimStart(s[1..], space) else s
  }

  /** `TrimStart` drops exactly the leading run of spaces: the rest is a suffix that starts with a non-space. */
  lemma {:induction false} TrimStartShape(s: string, space: char -> bool)
    ensures var r := TrimStart(s, space);
      |r| <= |s| && r == s[|s| - |r|..]
      && (forall i :: 0 <= i < |s| - |r| ==> space(s[i]))
      && (|r| > 0 ==> !space(r[0]))
  {
    if |s| > 0 && space(s[0]) {
      TrimStartShape(s[1..], space);
    }
  }

  function TrimEnd(s: string, space: char -> bool): string {
    if |s| > 0 && space(s[|s| - 1]) then TrimEnd(s[..|s| - 1], space) else s
  }

  /** `TrimEnd` drops exactly the trailing run of spaces: the rest is a prefix that ends with a non-space. */
  lemma {:induction false} TrimEndShape(s: string, space: char -> bool)
    ensures var r := TrimEnd(s, space);
      |r| <= |s| && r == s[..|r|]
      && (forall i :: |r| <= i < |s| ==> space(s[i]))
      && (|r| > 0 ==> !space(r[|r| - 1]))
  {
    if |s| > 0 && space(s[|s| - 1]) {
      TrimEndShape(s[..|s| - 1], space);
    }
  }

  function Trim(s: string, space: char -> bool): string {
    TrimEnd(TrimStart(s, space), space)
  }

  /** Trimming gives the empty string exactly when every character is a space. */
  lemma TrimEmptyIffAllSpace(s: string, space: char -> bool)
    ensures Trim(s, space) == "" <==> forall i :: 0 <= i < |s| ==> space(s[i])
  {
    TrimStartShape(s, space);
    TrimEndShape(TrimStart(s, space), space);
  }

  function PhpTrim(s: string): string {
    Trim(s, PhpSpace)
  }

  function JsTrim(s: string): string {
    Trim(s, JsSpace)
  }

  // ---------------------------------------------------------------------------
  // Case and splitting
  // ---------------------------------------------------------------------------

  function LowerChar(c: char): char {
    if 'A' <= c <= 'Z' then ((c as int) + 32) as char else c
  }

  /** ASCII lower-casing, character by character. */
  function ToLower(s: string): (r: string)
    ensures |r| == |s| && forall i :: 0 <= i < |s| ==> r[i] == LowerChar(s[i])
  {
    seq(|s|, i requires 0 <= i < |s| => LowerChar(s[i]))
  }

  function Count(s: string, c: char): nat {
    if |s| == 0 then 0 else (if s[0] == c then 1 else 0) + Count(s[1..], c)
  }

  /** `s.split(c)` / PHP `explode(c, s)`: the pieces between occurrences of `c`. */
  function Split(s: string, c: char): (parts: seq<string>)
    ensures |parts| == Count(s, c) + 1
    ensures forall k :: 0 <= k < |parts| ==> c !in parts[k]
  {
    if |s| == 0 then [""]
    else
      var rest := Split(s[1..], c);
      if s[0] == c then [""] + rest else [[s[0]] + rest[0]] + rest[1..]
  }

  function Join(parts: seq<string>, c: char): string
    requires |parts| >= 1
  {
    if |parts| == 1 then parts[0] else parts[0] + [c] + Join(parts[1..], c)
  }

  /** Splitting loses nothing: joining the pieces with the separator rebuilds the string. */
  lemma {:induction false} JoinSplit(s: string, c: char)
    ensures Join(Split(s, c), c) == s
  {
    if |s| > 0 {
      JoinSplit(s[1..], c);
      var rest := Split(s[1..], c);
      if s[0] != c {
        if |rest| == 1 {
        } else {
          assert Join(rest, c) == rest[0] + [c] + Join(rest[1..], c);
          assert ([[s[0]] + rest[0]] + rest[1..])[1..] == rest[1..];
        }
      } else {
        assert ([""] + rest)[1..] == rest;
      }
    }
  }

  /** With exactly one separator, the two pieces are what lies before and after it. */
  lemma SplitOnce(s: string, c: char, k: nat)
    requires k < |s| && s[k] == c && Count(s, c) == 1
    ensures Split(s, c) == [s[..k], s[k + 1..]]
  {
    var parts := Split(s, c);
    JoinSplit(s, c);
    assert Join(parts, c) == parts[0] + [c] + parts[1];
    assert c !in parts[0];
    assert s[..k] == parts[0];
    assert s[k + 1..] == parts[1];
  }

  /** A piece free of the separator is cut off intact. */
  lemma {:induction false} SplitAfterPiece(a: string, c: char, b: string)
    requires c !in a
    ensures Split(a + [c] + b, c) == [a] + Split(b, c)
  {
    if |a| == 0 {
      assert a + [c] + b == [c] + b;
      assert ([c] + b)[1..] == b;
    } else {
      assert (a + [c] + b)[1..] == a[1..] + [c] + b;
      SplitAfterPiece(a[1..], c, b);
      assert [a[0]] + a[1..] == a;
    }
  }

  /** A string free of the separator splits into itself. */
  lemma {:induction false} SplitWithoutSeparator(a: string, c: char)
    requires c !in a
    ensures Split(a, c) == [a]
  {
    if |a| > 0 {
      SplitWithoutSeparator(a[1..], c);
      assert [a[0]] + a[1..] == a;
    }
  }

  /** Trimming leaves a string alone when it neither starts nor ends with a space. */
  lemma TrimNoop(s: string, space: char -> bool)
    requires |s| > 0 && !space(s[0]) && !space(s[|s| - 1])
    ensures Trim(s, space) == s
  {
  }

  lemma {:induction false} CountAppend(a: string, b: string, c: char)
    ensures Count(a + b, c) == Count(a, c) + Count(b, c)
  {
    if |a| > 0 {
      assert (a + b)[1..] == a[1..] + b;
      CountAppend(a[1..], b, c);
    } else {
      assert a + b == b;
    }
  }

  /** A character that occurs once occurs nowhere else. */
  lemma CountOneUnique(s: string, c: char, k: nat)
    requires k < |s| && s[k] == c && Count(s, c) == 1
    ensures forall j :: 0 <= j < |s| && j != k ==> s[j] != c
  {
    assert s == s[..k] + ([s[k]] + s[k + 1..]);
    CountAppend(s[..k], [s[k]] + s[k + 1..], c);
    CountAppend([s[k]], s[k + 1..], c);
    CountZeroIffAbsent(s[..k], c);
    CountZeroIffAbsent(s[k + 1..], c);
    forall j | 0 <= j < |s| && j != k
      ensures s[j] != c
    {
      if j < k {
        assert s[j] == s[..k][j];
      } else {
        assert s[j] == s[k + 1..][j - k - 1];
      }
    }
  }

  lemma {:induction false} CountZeroIffAbsent(s: string, c: char)
    ensures Count(s, c) == 0 <==> c !in s
  {
    if |s| > 0 {
      CountZeroIffAbsent(s[1..], c);
      assert s == [s[0]] + s[1..];
    }
  }
}
