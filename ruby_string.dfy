/**
 * The handful of Ruby string and integer conversions the core relies on:
 * `String#to_i` (base 10), `Integer#to_s`, `format("%02d", n)`, the zero
 * padding of `strftime`, `String#delete_suffix` and `String#gsub(",", "")`.
 */
module RubyString {

  predicate IsDigit(c: char) { '0' <= c <= '9' }

  /** The characters Ruby's `to_i` skips before the number. */
  predicate IsSpace(c: char) {
    c == ' ' || c == '\t' || c == '\n' || c == '\U{B}' || c == '\U{C}' || c == '\r'
  }

  predicate AllDigits(d: string) { forall i :: 0 <= i < |d| ==> IsDigit(d[i]) }

  function DigitValue(c: char): (v: nat)
    requires IsDigit(c)
    ensures v < 10
  {
    (c as int) - ('0' as int)
  }

  function DigitChar(v: nat): (c: char)
    requires v < 10
    ensures IsDigit(c) && DigitValue(c) == v
  {
    (('0' as int) + v) as char
  }

  /** Value of a string of decimal digits, most significant digit first. */
  function DigitsValue(d: string): nat
    requires AllDigits(d)
  {
    if d == [] then 0 else DigitsValue(d[..|d| - 1]) * 10 + DigitValue(d[|d| - 1])
  }

  /** The longest prefix of `s` made of decimal digits. */
  function LeadingDigits(s: string): (d: string)
    ensures AllDigits(d) && d <= s
    ensures |d| < |s| ==> !IsDigit(s[|d|])
  {
    if s != [] && IsDigit(s[0]) then [s[0]] + LeadingDigits(s[1..]) else []
  }

  /** `s` without its leading whitespace. */
  function SkipSpace(s: string): (t: string)
    ensures |t| <= |s| && t == s[|s| - |t|..]
    ensures forall i :: 0 <= i < |s| - |t| ==> IsSpace(s[i])
    ensures t != [] ==> !IsSpace(t[0])
  {
    if s != [] && IsSpace(s[0]) then SkipSpace(s[1..]) else s
  }

  /** The optional `0d`/`0D` radix prefix that base-10 `to_i` skips after the sign. */
  function SkipDecimalPrefix(s: string): (t: string)
    ensures t == s || (|s| >= 2 && s[0] == '0' && (s[1] == 'd' || s[1] == 'D') && t == s[2..])
    ensures |s| >= 2 && s[0] == '0' && (s[1] == 'd' || s[1] == 'D') ==> t == s[2..]
  {
    if |s| >= 2 && s[0] == '0' && (s[1] == 'd' || s[1] == 'D') then s[2..] else s
  }

  /** The value of the digit run that starts `s`, after an optional `0d` prefix. */
  function Magnitude(s: string): nat
  {
    DigitsValue(LeadingDigits(SkipDecimalPrefix(s)))
  }

  /**
   * Ruby's `String#to_i`: skip leading whitespace, read an optional sign, an
   * optional `0d` prefix and then the longest run of decimal digits; no
   * digits at all reads as 0.
   */
  function ToI(s: string): int
  {
    var t := SkipSpace(s);
    if t != [] && t[0] == '-' then -(Magnitude(t[1..]) as int)
    else if t != [] && t[0] == '+' then Magnitude(t[1..])
    else Magnitude(t)
  }

  /** Decimal digits of a natural number, without leading zeros. */
  function NatToS(n: nat): (d: string)
    ensures |d| >= 1 && AllDigits(d)
    ensures |d| > 1 ==> d[0] != '0'
    ensures DigitsValue(d) == n
  {
    if n < 10 then [DigitChar(n)]
    else
      var d := NatToS(n / 10) + [DigitChar(n % 10)];
      assert d[..|d| - 1] == NatToS(n / 10);
      d
  }

  /** Ruby's `Integer#to_s`: a minus sign exactly for negative numbers, then the digits. */
  function IntToS(x: int): (r: string)
    ensures |r| >= 1
    ensures r[0] == '-' <==> x < 0
    ensures x >= 0 ==> AllDigits(r)
  {
    if x < 0 then "-" + NatToS(-x) else NatToS(x)
  }

  function Zeros(k: nat): (z: string)
    ensures |z| == k && forall i :: 0 <= i < k ==> z[i] == '0'
  {
    seq(k, _ => '0')
  }

  /** `n` in decimal, left-padded with zeros to at least `width` characters. */
  function ZeroPad(n: nat, width: nat): (r: string)
    ensures |NatToS(n)| <= width ==> |r| == width
    ensures |NatToS(n)| >= width ==> r == NatToS(n)
  {
    var d := NatToS(n);
    if |d| < width then Zeros(width - |d|) + d else d
  }

  /** Ruby's `format("%02d", n)`: the sign counts towards the width of two. */
  function Format02d(n: int): string
  {
    if n >= 0 then ZeroPad(n, 2) else "-" + NatToS(-n)
  }

  /** `strftime("%Y")`: the year padded to at least four digits, after its sign. */
  function StrftimeYear(year: int): string
  {
    if year >= 0 then ZeroPad(year, 4) else "-" + ZeroPad(-year, 4)
  }

  /** Ruby's `String#delete_suffix`. */
  function DeleteSuffix(s: string, suffix: string): (r: string)
    ensures r == s || r + suffix == s
    ensures |suffix| <= |s| && s[|s| - |suffix|..] == suffix ==> r + suffix == s
  {
    if |suffix| <= |s| && s[|s| - |suffix|..] == suffix then s[..|s| - |suffix|] else s
  }

  /** Ruby's `String#gsub(c, "")` for a single character `c`. */
  function RemoveChar(s: string, c: char): (r: string)
    ensures c !in r
    ensures |r| <= |s|
  {
    if s == [] then []
    else (if s[0] == c then [] else [s[0]]) + RemoveChar(s[1..], c)
  }

  // ---------------------------------------------------------------------
  // Properties

  lemma {:induction false} ZerosValue(k: nat, d: string)
    requires AllDigits(d)
    ensures AllDigits(Zeros(k) + d) && DigitsValue(Zeros(k) + d) == DigitsValue(d)
  {
    var s := Zeros(k) + d;
    if d == [] {
      assert s == Zeros(k);
      if k > 0 {
        assert s[..|s| - 1] == Zeros(k - 1) + [];
        ZerosValue(k - 1, []);
      }
    } else {
      var d' := d[..|d| - 1];
      assert s[..|s| - 1] == Zeros(k) + d';
      ZerosValue(k, d');
    }
  }

  /** ZeroPad keeps the value and pads exactly to `width` when the number fits. */
  lemma ZeroPadDigits(n: nat, width: nat)
    ensures AllDigits(ZeroPad(n, width)) && DigitsValue(ZeroPad(n, width)) == n
    ensures |ZeroPad(n, width)| >= width && |ZeroPad(n, width)| >= 1
    ensures |NatToS(n)| <= width ==> |ZeroPad(n, width)| == width
    ensures n < 10 && width >= 1 ==> |ZeroPad(n, width)| == width
    ensures n < 100 && width >= 2 ==> |ZeroPad(n, width)| == width
    ensures n < 10000 && width >= 4 ==> |ZeroPad(n, width)| == width
  {
    var d := NatToS(n);
    if |d| < width { ZerosValue(width - |d|, d); }
    NatToSLength(n);
  }

  /** Number of digits of small numbers. */
  lemma {:induction false} NatToSLength(n: nat)
    ensures n < 10 ==> |NatToS(n)| == 1
    ensures n < 100 ==> |NatToS(n)| <= 2
    ensures n < 1000 ==> |NatToS(n)| <= 3
    ensures n < 10000 ==> |NatToS(n)| <= 4
    ensures n >= 10 ==> |NatToS(n)| >= 2
    ensures n >= 100 ==> |NatToS(n)| >= 3
    ensures n >= 1000 ==> |NatToS(n)| >= 4
  {
    if n >= 10 {
      var q := n / 10;
      NatToSLength(q);
      assert |NatToS(n)| == |NatToS(q)| + 1;
      assert n < 100 ==> q < 10;
      assert n < 1000 ==> q < 100;
      assert n < 10000 ==> q < 1000;
      assert n >= 100 ==> q >= 10;
      assert n >= 1000 ==> q >= 100;
    }
  }

  /** The magnitude of a digit run that is not a lone `0` before a `d`/`D`. */
  lemma MagnitudeOfDigits(d: string, rest: string)
    requires d != [] && AllDigits(d)
    requires rest == [] || !IsDigit(rest[0])
    requires d == "0" ==> rest == [] || (rest[0] != 'd' && rest[0] != 'D')
    ensures Magnitude(d + rest) == DigitsValue(d)
  {
    var s := d + rest;
    assert s[0] == d[0];
    if |d| >= 2 {
      assert s[1] == d[1];
    } else if rest != [] {
      assert s[1] == rest[0];
    }
    assert SkipDecimalPrefix(s) == s;
    LeadingDigitsExact(d, rest);
  }

  /**
   * `to_i` reads back a string of digits that starts the text, stopping at
   * the first non-digit; a lone `0` before `d`/`D` is the radix prefix
   * instead, see `ToIOfDecimalPrefix`.
   */
  lemma ToIOfDigits(d: string, rest: string)
    requires d != [] && AllDigits(d)
    requires rest == [] || !IsDigit(rest[0])
    requires d == "0" ==> rest == [] || (rest[0] != 'd' && rest[0] != 'D')
    ensures ToI(d + rest) == DigitsValue(d)
  {
    var s := d + rest;
    assert s[0] == d[0];
    assert SkipSpace(s) == s;
    MagnitudeOfDigits(d, rest);
  }

  /** The same after a minus sign. */
  lemma ToIOfNegativeDigits(d: string, rest: string)
    requires d != [] && AllDigits(d)
    requires rest == [] || !IsDigit(rest[0])
    requires d == "0" ==> rest == [] || (rest[0] != 'd' && rest[0] != 'D')
    ensures ToI("-" + d + rest) == -(DigitsValue(d) as int)
  {
    var m := "-" + d + rest;
    assert SkipSpace(m) == m;
    assert m[1..] == d + rest;
    MagnitudeOfDigits(d, rest);
  }

  /** The magnitude after a `0d`/`0D` prefix is that of the digits following it. */
  lemma MagnitudeOfDecimalPrefix(p: char, d: string, rest: string)
    requires p == 'd' || p == 'D'
    requires AllDigits(d)
    requires rest == [] || !IsDigit(rest[0])
    ensures Magnitude(['0', p] + d + rest) == DigitsValue(d)
  {
    var u := ['0', p] + d + rest;
    assert u[0] == '0' && u[1] == p && u[2..] == d + rest;
    LeadingDigitsExact(d, rest);
  }

  /** A `0d`/`0D` prefix is skipped: `"0d5".to_i` is 5. */
  lemma ToIOfDecimalPrefix(p: char, d: string, rest: string)
    requires p == 'd' || p == 'D'
    requires AllDigits(d)
    requires rest == [] || !IsDigit(rest[0])
    ensures ToI(['0', p] + d + rest) == DigitsValue(d)
  {
    var u := ['0', p] + d + rest;
    assert SkipSpace(u) == u by { assert u[0] == '0'; }
    MagnitudeOfDecimalPrefix(p, d, rest);
  }

  /** The prefix is also skipped after a minus sign: `"-0d5".to_i` is -5. */
  lemma ToIOfNegativeDecimalPrefix(p: char, d: string, rest: string)
    requires p == 'd' || p == 'D'
    requires AllDigits(d)
    requires rest == [] || !IsDigit(rest[0])
    ensures ToI("-" + (['0', p] + d + rest)) == -(DigitsValue(d) as int)
  {
    var m := "-" + (['0', p] + d + rest);
    assert SkipSpace(m) == m by { assert m[0] == '-'; }
    assert m[1..] == ['0', p] + d + rest;
    MagnitudeOfDecimalPrefix(p, d, rest);
  }

  lemma {:induction false} LeadingDigitsExact(d: string, rest: string)
    requires AllDigits(d)
    requires rest == [] || !IsDigit(rest[0])
    ensures LeadingDigits(d + rest) == d
  {
    if d == [] {
      assert d + rest == rest;
    } else {
      assert (d + rest)[0] == d[0];
      assert (d + rest)[1..] == d[1..] + rest;
      LeadingDigitsExact(d[1..], rest);
      assert [d[0]] + d[1..] == d;
    }
  }

  /** A zero-padded number reads back as the number. */
  lemma ToIOfZeroPad(n: nat, width: nat)
    ensures ToI(ZeroPad(n, width)) == n
  {
    ZeroPadDigits(n, width);
    ToIOfDigits(ZeroPad(n, width), []);
    assert ZeroPad(n, width) + [] == ZeroPad(n, width);
  }

  /** `strftime("%Y")` reads back as the year, whatever its sign. */
  lemma ToIOfStrftimeYear(year: int)
    ensures ToI(StrftimeYear(year)) == year
    ensures 0 <= year <= 9999 ==> |StrftimeYear(year)| == 4
    ensures year >= 0 ==> AllDigits(StrftimeYear(year))
    ensures year >= 1000 ==> StrftimeYear(year) == IntToS(year)
  {
    if year >= 0 {
      ToIOfZeroPad(year, 4);
      ZeroPadDigits(year, 4);
      NatToSLength(year);
    } else {
      ZeroPadDigits(-year, 4);
      ToIOfNegativeDigits(ZeroPad(-year, 4), []);
      assert "-" + ZeroPad(-year, 4) + [] == StrftimeYear(year);
    }
  }

  /** `format("%02d", n)` has at least two characters, exactly two digits below 100, and reads back as `n`. */
  lemma Format02dReadsBack(n: int)
    ensures |Format02d(n)| >= 2
    ensures 0 <= n < 100 ==> |Format02d(n)| == 2 && AllDigits(Format02d(n))
    ensures ToI(Format02d(n)) == n
  {
    if n >= 0 {
      ZeroPadDigits(n, 2);
      ToIOfZeroPad(n, 2);
    } else {
      ToIOfIntToS(n);
    }
  }

  /** Round trip: `x.to_s.to_i == x` for every integer. */
  lemma ToIOfIntToS(x: int)
    ensures ToI(IntToS(x)) == x
  {
    if x < 0 {
      ToIOfNegativeDigits(NatToS(-x), []);
      assert "-" + NatToS(-x) + [] == IntToS(x);
    } else {
      ToIOfDigits(NatToS(x), []);
      assert NatToS(x) + [] == IntToS(x);
    }
  }

  /** `delete_suffix` undoes appending the suffix. */
  lemma DeleteSuffixOfAppend(t: string, suffix: string)
    ensures DeleteSuffix(t + suffix, suffix) == t
  {
  }

  /** Removing a character distributes over concatenation, so the other characters keep their order. */
  lemma {:induction false} RemoveCharAppend(a: string, b: string, c: char)
    ensures RemoveChar(a + b, c) == RemoveChar(a, c) + RemoveChar(b, c)
  {
    if a == [] {
      assert a + b == b;
    } else {
      var ab := a + b;
      assert ab[0] == a[0];
      assert ab[1..] == a[1..] + b;
      RemoveCharAppend(a[1..], b, c);
      var h := if a[0] == c then [] else [a[0]];
      calc {
        RemoveChar(ab, c);
        h + RemoveChar(a[1..] + b, c);
        h + (RemoveChar(a[1..], c) + RemoveChar(b, c));
        (h + RemoveChar(a[1..], c)) + RemoveChar(b, c);
      }
    }
  }

  /** A text without the character is left as it is. */
  lemma {:induction false} RemoveCharAbsent(s: string, c: char)
    requires c !in s
    ensures RemoveChar(s, c) == s
  {
    if s != [] {
      assert c !in s[1..];
      RemoveCharAbsent(s[1..], c);
    }
  }
}
