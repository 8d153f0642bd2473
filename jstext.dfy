/**
 * The few JavaScript string and number built-ins the patient engine relies on:
 * String.prototype.trim, parseInt without a radix, String(n) on integers,
 * padStart with a one-character filler and replace of the first occurrence
 * of a one-character pattern.
 */
module JsText {

  /** The result of parseFloat or parseInt: NaN or a number. */
  datatype Parsed<T> = NaN | Num(value: T)

  /** JavaScript's WhiteSpace and LineTerminator code points (what trim and parseInt skip). */
  predicate IsWhitespace(c: char) {
    c == '\t' || c == '\n' || c == '\U{000B}' || c == '\U{000C}' || c == '\r' || c == ' ' ||
    c == '\U{00A0}' || c == '\U{1680}' || ('\U{2000}' <= c <= '\U{200A}') ||
    c == '\U{2028}' || c == '\U{2029}' || c == '\U{202F}' || c == '\U{205F}' ||
    c == '\U{3000}' || c == '\U{FEFF}'
  }

  /** Drops the leading whitespace: what is left is a suffix of `s` that starts with a non-blank. */
  function TrimStart(s: string): (r: string)
    ensures |r| <= |s| && r == s[|s| - |r|..]
    ensures forall k :: 0 <= k < |s| - |r| ==> IsWhitespace(s[k])
    ensures r == [] || !IsWhitespace(r[0])
  {
    if |s| > 0 && IsWhitespace(s[0]) then TrimStart(s[1..]) else s
  }

  /** Drops the trailing whitespace: what is left is a prefix of `s` that ends with a non-blank. */
  function TrimEnd(s: string): (r: string)
    ensures |r| <= |s| && r == s[..|r|]
    ensures forall k :: |r| <= k < |s| ==> IsWhitespace(s[k])
    ensures r == [] || !IsWhitespace(r[|r| - 1])
  {
    if |s| > 0 && IsWhitespace(s[|s| - 1]) then TrimEnd(s[..|s| - 1]) else s
  }

  /** String.prototype.trim. */
  function Trim(s: string): (r: string)
    ensures |r| <= |s|
    ensures r == [] <==> forall k :: 0 <= k < |s| ==> IsWhitespace(s[k])
    ensures r != [] ==> !IsWhitespace(r[0]) && !IsWhitespace(r[|r| - 1])
  {
    var t := TrimStart(s);
    var r := TrimEnd(t);
    assert r == [] ==> t == [];
    r
  }

  /** trim keeps the middle slice s[i..j] of the text and drops only whitespace on either side of it. */
  lemma {:induction false} TrimIsMiddle(s: string) returns (i: nat, j: nat)
    ensures i <= j <= |s| && Trim(s) == s[i..j]
    ensures forall k :: 0 <= k < i ==> IsWhitespace(s[k])
    ensures forall k :: j <= k < |s| ==> IsWhitespace(s[k])
  {
    var t := TrimStart(s);
    var r := TrimEnd(t);
    assert Trim(s) == r;
    i := |s| - |t|;
    j := i + |r|;
    assert t == s[i..];
    assert r == t[..|r|];
    assert s[i..j] == s[i..][..|r|];
    assert r == s[i..j];
    forall k | j <= k < |s| ensures IsWhitespace(s[k]) {
      assert k - i >= |r| && k - i < |t|;
      assert s[k] == t[k - i];
    }
  }

  /** trim removes exactly the blank padding around a text that starts and ends with a non-blank. */
  lemma TrimPadded(before: string, s: string, after: string)
    requires forall k :: 0 <= k < |before| ==> IsWhitespace(before[k])
    requires forall k :: 0 <= k < |after| ==> IsWhitespace(after[k])
    requires s != [] && !IsWhitespace(s[0]) && !IsWhitespace(s[|s| - 1])
    ensures Trim(before + s + after) == s
  {
    var t := s + after;
    assert t[0] == s[0];
    assert before + s + after == before + t;
    TrimStartPadded(before, t);
    TrimEndPadded(s, after);
    assert TrimEnd(TrimStart(before + t)) == s;
  }

  lemma {:induction false} TrimStartPadded(before: string, s: string)
    requires forall k :: 0 <= k < |before| ==> IsWhitespace(before[k])
    requires s != [] && !IsWhitespace(s[0])
    ensures TrimStart(before + s) == s
    decreases |before|
  {
    if before != [] {
      assert (before + s)[1..] == before[1..] + s;
      TrimStartPadded(before[1..], s);
    } else {
      assert before + s == s;
    }
  }

  lemma {:induction false} TrimEndPadded(s: string, after: string)
    requires forall k :: 0 <= k < |after| ==> IsWhitespace(after[k])
    requires s != [] && !IsWhitespace(s[|s| - 1])
    ensures TrimEnd(s + after) == s
    decreases |after|
  {
    if after != [] {
      var w := s + after;
      assert w[..|w| - 1] == s + after[..|after| - 1];
      TrimEndPadded(s, after[..|after| - 1]);
    } else {
      assert s + after == s;
    }
  }

  /** The value of a letter or digit in bases up to 36; 36 for any other character. */
  function DigitValue(c: char): (v: nat)
    ensures v <= 36
  {
    if '0' <= c <= '9' then c as int - '0' as int
    else if 'a' <= c <= 'z' then c as int - 'a' as int + 10
    else if 'A' <= c <= 'Z' then c as int - 'A' as int + 10
    else 36
  }

  /** Length of the longest prefix of `s` made of digits of the given radix. */
  function DigitRun(s: string, radix: nat): (n: nat)
    ensures n <= |s|
    ensures forall k :: 0 <= k < n ==> DigitValue(s[k]) < radix
    ensures n < |s| ==> DigitValue(s[n]) >= radix
  {
    if |s| > 0 && DigitValue(s[0]) < radix then 1 + DigitRun(s[1..], radix) else 0
  }

  /** Positional value of a digit string, most significant digit first. */
  function DigitsValue(s: string, radix: nat): nat {
    if s == [] then 0 else DigitsValue(s[..|s| - 1], radix) * radix + DigitValue(s[|s| - 1])
  }

  /**
   * parseInt(s) with no radix: skip leading whitespace, take an optional sign,
   * then read the magnitude.
   */
  function ParseInt(s: string): (r: Parsed<int>)
    ensures var t := TrimStart(s);
      (t == [] || (t[0] != '-' && t[0] != '+' && DigitValue(t[0]) >= 10)) ==> r == NaN
    ensures r.Num? && r.value < 0 ==> TrimStart(s) != [] && TrimStart(s)[0] == '-'
  {
    var t := TrimStart(s);
    if |t| > 0 && t[0] == '-' then
      match ParseMagnitude(t[1..])
      case NaN => NaN
      case Num(v) => Num(-v)
    else if |t| > 0 && t[0] == '+' then ParseMagnitude(t[1..])
    else ParseMagnitude(t)
  }

  /** Base 16 after a "0x" or "0X" prefix, base 10 otherwise. */
  function ParseMagnitude(u: string): Parsed<int> {
    if |u| >= 2 && u[0] == '0' && (u[1] == 'x' || u[1] == 'X') then LeadingDigits(u[2..], 16)
    else LeadingDigits(u, 10)
  }

  /** The value of the longest run of digits at the start of `s`; NaN when there is none. */
  function LeadingDigits(s: string, radix: nat): Parsed<int> {
    var n := DigitRun(s, radix);
    if n == 0 then NaN else Num(DigitsValue(s[..n], radix))
  }

  function DigitChar(d: nat): char
    requires d < 10
  {
    "0123456789"[d]
  }

  /** Decimal numeral of a natural number, without leading zeros. */
  function NatToDecimal(n: nat): string
    decreases n
  {
    if n < 10 then [DigitChar(n)] else NatToDecimal(n / 10) + [DigitChar(n % 10)]
  }

  /**
   * String(n) on an integer-valued number: the sign when negative, then the
   * decimal digits of |n| with no leading zero (just "0" for zero).
   */
  function IntToString(n: int): (r: string)
    ensures n >= 0 ==> |r| >= 1 && (forall k :: 0 <= k < |r| ==> DigitValue(r[k]) < 10) && DigitsValue(r, 10) == n
    ensures n == 0 ==> r == "0"
    ensures n > 0 ==> r[0] != '0'
    ensures n < 0 ==> (
      && |r| >= 2 && r[0] == '-' && r[1] != '0'
      && (forall k :: 1 <= k < |r| ==> DigitValue(r[k]) < 10)
      && DigitsValue(r[1..], 10) == -n)
  {
    if n < 0 then
      DecimalDigits(-n);
      var d := NatToDecimal(-n);
      assert ("-" + d)[1..] == d;
      "-" + d
    else
      DecimalDigits(n);
      NatToDecimal(n)
  }

  function Repeat(c: char, n: nat): (r: string)
    ensures |r| == n && forall k :: 0 <= k < n ==> r[k] == c
  {
    if n == 0 then [] else [c] + Repeat(c, n - 1)
  }

  /** Left-pads `s` with `fill` up to `width` characters; longer strings are kept whole. */
  function PadStart(s: string, width: nat, fill: char): (r: string)
    ensures |r| == if |s| >= width then |s| else width
    ensures r[|r| - |s|..] == s
    ensures forall k :: 0 <= k < |r| - |s| ==> r[k] == fill
  {
    if |s| >= width then s else Repeat(fill, width - |s|) + s
  }

  /** The position of the first occurrence of `c` in `s`. */
  function FirstIndex(s: string, c: char): (i: nat)
    requires c in s
    ensures i < |s| && s[i] == c && c !in s[..i]
  {
    if s[0] == c then 0 else 1 + FirstIndex(s[1..], c)
  }

  /** Replacing a one-character pattern by nothing: only the first occurrence goes. */
  function RemoveFirst(s: string, c: char): (r: string)
    ensures c !in s ==> r == s
    ensures c in s ==> r == s[..FirstIndex(s, c)] + s[FirstIndex(s, c) + 1..]
  {
    if s == [] then []
    else if s[0] == c then s[1..]
    else
      var rest := RemoveFirst(s[1..], c);
      assert c in s ==> [s[0]] + rest == s[..FirstIndex(s, c)] + s[FirstIndex(s, c) + 1..] by {
        if c in s {
          SkipFirst(s, c);
        }
      }
      [s[0]] + rest
  }

  lemma SkipFirst(s: string, c: char)
    requires c in s && s[0] != c
    ensures c in s[1..]
    ensures var j := FirstIndex(s[1..], c);
      FirstIndex(s, c) == j + 1 &&
      s[..j + 1] + s[j + 2..] == [s[0]] + (s[1..][..j] + s[1..][j + 1..])
  {
    var j := FirstIndex(s[1..], c);
    assert s[..j + 1] == [s[0]] + s[1..][..j];
    assert s[j + 2..] == s[1..][j + 1..];
  }

  // Lemmas about reading back the numerals the functions above write.

  /** The numeral of n is a non-empty run of decimal digits worth n, with no leading zero. */
  lemma {:induction false} DecimalDigits(n: nat)
    ensures |NatToDecimal(n)| >= 1
    ensures forall k :: 0 <= k < |NatToDecimal(n)| ==> DigitValue(NatToDecimal(n)[k]) < 10
    ensures DigitsValue(NatToDecimal(n), 10) == n
    ensures n == 0 ==> NatToDecimal(n) == "0"
    ensures n > 0 ==> NatToDecimal(n)[0] != '0'
    decreases n
  {
    var s := NatToDecimal(n);
    if n >= 10 {
      DecimalDigits(n / 10);
      assert s[..|s| - 1] == NatToDecimal(n / 10);
      assert s[0] == NatToDecimal(n / 10)[0];
      assert DigitValue(s[|s| - 1]) == n % 10 by {
        var d := n % 10;
        assert s[|s| - 1] == "0123456789"[d];
      }
    } else {
      assert DigitValue(s[0]) == n by { assert s[0] == "0123456789"[n]; }
      assert s[..0] == [];
    }
  }

  /**
   * The numeral is the only digit string worth n without a leading zero: any
   * other such string is NatToDecimal(n) itself.
   */
  lemma {:induction false} CanonicalNumeral(s: string, n: nat)
    requires |s| >= 1 && forall k :: 0 <= k < |s| ==> DigitValue(s[k]) < 10
    requires |s| == 1 || s[0] != '0'
    requires DigitsValue(s, 10) == n
    ensures NatToDecimal(n) == s
    decreases |s|
  {
    var init, c := s[..|s| - 1], s[|s| - 1];
    DigitCharOfValue(c);
    if |s| == 1 {
      assert init == [];
    } else {
      assert init[0] == s[0];
      var q := DigitsValue(init, 10);
      LeadingDigitPositive(init);
      CanonicalNumeral(init, q);
      assert n == q * 10 + DigitValue(c);
      assert n / 10 == q && n % 10 == DigitValue(c);
      assert s == init + [c];
    }
  }

  lemma DigitCharOfValue(c: char)
    requires DigitValue(c) < 10
    ensures DigitChar(DigitValue(c)) == c
  {
    DigitIsNoMark(c);
  }

  /** A digit string that does not start with 0 is worth at least 1. */
  lemma {:induction false} LeadingDigitPositive(s: string)
    requires |s| >= 1 && forall k :: 0 <= k < |s| ==> DigitValue(s[k]) < 10
    requires s[0] != '0'
    ensures DigitsValue(s, 10) >= 1
    decreases |s|
  {
    if |s| == 1 {
      DigitIsNoMark(s[0]);
      assert s[..0] == [];
    } else {
      var init := s[..|s| - 1];
      assert init[0] == s[0];
      LeadingDigitPositive(init);
    }
  }

  lemma {:induction false} LeadingZerosValue(z: nat, s: string)
    ensures DigitsValue(Repeat('0', z) + s, 10) == DigitsValue(s, 10)
    decreases |s|, z
  {
    var w := Repeat('0', z) + s;
    if s == [] {
      if z > 0 {
        assert w[..|w| - 1] == Repeat('0', z - 1) + [];
        LeadingZerosValue(z - 1, []);
      }
    } else {
      assert w[..|w| - 1] == Repeat('0', z) + s[..|s| - 1];
      LeadingZerosValue(z, s[..|s| - 1]);
    }
  }

  lemma {:induction false} FullDigitRun(s: string, radix: nat)
    requires forall k :: 0 <= k < |s| ==> DigitValue(s[k]) < radix
    ensures DigitRun(s, radix) == |s|
    decreases |s|
  {
    if |s| > 0 {
      FullDigitRun(s[1..], radix);
    }
  }

  lemma DigitIsNoMark(c: char)
    requires DigitValue(c) < 10
    ensures '0' <= c <= '9'
    ensures !IsWhitespace(c) && c != '-' && c != '+' && c != 'x' && c != 'X'
  {
  }

  lemma AllDigitsParse(s: string)
    requires |s| >= 1
    requires forall k :: 0 <= k < |s| ==> DigitValue(s[k]) < 10
    ensures ParseMagnitude(s) == Num(DigitsValue(s, 10))
  {
    if |s| >= 2 { DigitIsNoMark(s[1]); }
    FullDigitRun(s, 10);
    assert s[..|s|] == s;
  }

  lemma ParseAllDigits(s: string)
    requires |s| >= 1
    requires forall k :: 0 <= k < |s| ==> DigitValue(s[k]) < 10
    ensures ParseInt(s) == Num(DigitsValue(s, 10))
  {
    DigitIsNoMark(s[0]);
    assert TrimStart(s) == s;
    AllDigitsParse(s);
  }

  /** Reading back a zero-padded decimal numeral gives the number. */
  lemma ParsePaddedDecimal(n: nat, width: nat)
    ensures ParseInt(PadStart(NatToDecimal(n), width, '0')) == Num(n)
  {
    var d := NatToDecimal(n);
    DecimalDigits(n);
    var s := PadStart(d, width, '0');
    PaddedDigits(d, width);
    ParseAllDigits(s);
    LeadingZerosValue(|s| - |d|, d);
  }

  lemma PaddedDigits(d: string, width: nat)
    requires forall k :: 0 <= k < |d| ==> DigitValue(d[k]) < 10
    ensures var s := PadStart(d, width, '0');
      s == Repeat('0', |s| - |d|) + d &&
      forall k :: 0 <= k < |s| ==> DigitValue(s[k]) < 10
  {
    var s := PadStart(d, width, '0');
    var z := |s| - |d|;
    forall k | 0 <= k < |s| ensures DigitValue(s[k]) < 10 {
      if k >= z { assert s[k] == d[k - z]; }
    }
  }

  /** Reading back the numeral of a negative number gives the number. */
  lemma ParseNegativeDecimal(m: nat)
    requires m >= 1
    ensures ParseInt("-" + NatToDecimal(m)) == Num(-(m as int))
  {
    var d := NatToDecimal(m);
    DecimalDigits(m);
    var s := "-" + d;
    assert !IsWhitespace(s[0]);
    assert TrimStart(s) == s;
    assert s[1..] == d;
    AllDigitsParse(d);
  }
}
