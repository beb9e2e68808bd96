/** Decimal integers as Python's `int(text)` reads them and `str(n)` writes
    them, restricted to ASCII digits. */
module Numerals {
  import opened Outcomes
  import opened Text

  predicate IsDigit(c: char) { '0' <= c <= '9' }

  predicate AllDigits(s: string) {
    forall i :: 0 <= i < |s| ==> IsDigit(s[i])
  }

  function DigitValue(c: char): nat
    requires IsDigit(c)
  {
    c as int - '0' as int
  }

  function DigitChar(d: nat): (c: char)
    requires d < 10
    ensures IsDigit(c) && DigitValue(c) == d
  {
    ('0' as int + d) as char
  }

  /** The value of a decimal digit string, most significant digit first. */
  function DigitsValue(s: string): nat
    requires AllDigits(s)
    decreases |s|
  {
    if s == [] then 0 else DigitsValue(s[..|s| - 1]) * 10 + DigitValue(s[|s| - 1])
  }

  /** The shortest decimal spelling of `n`, as `str(n)` writes it. */
  function NatToDigits(n: nat): (r: string)
    ensures r != [] && AllDigits(r)
    decreases n
  {
    if n < 10 then [DigitChar(n)] else NatToDigits(n / 10) + [DigitChar(n % 10)]
  }

  /** Reading back the digits of `n` gives `n`. */
  lemma {:induction false} DigitsRoundTrip(n: nat)
    ensures DigitsValue(NatToDigits(n)) == n
    decreases n
  {
    if n >= 10 {
      DigitsRoundTrip(n / 10);
      var s := NatToDigits(n);
      assert s[..|s| - 1] == NatToDigits(n / 10);
    }
  }

  /** `str(n)` for any integer. */
  function IntToString(n: int): (r: string)
    ensures r != [] && NoSpace(r)
    ensures n < 0 <==> r[0] == '-'
  {
    if n < 0 then "-" + NatToDigits(-n) else NatToDigits(n)
  }

  /** A sign-free digit run or a sign followed by one. */
  predicate IsIntLiteral(t: string) {
    if t != [] && (t[0] == '-' || t[0] == '+') then t[1..] != [] && AllDigits(t[1..])
    else t != [] && AllDigits(t)
  }

  /** The value of an integer literal, `None` for any other text. */
  function ParseIntLiteral(t: string): (r: Option<int>)
    ensures r.Some? <==> IsIntLiteral(t)
    ensures r.Some? ==> NoSpace(t)
  {
    if t != [] && (t[0] == '-' || t[0] == '+') then
      var ds := t[1..];
      if ds != [] && AllDigits(ds) then
        var magnitude: int := DigitsValue(ds);
        Some(if t[0] == '-' then -magnitude else magnitude)
      else None
    else if t != [] && AllDigits(t) then Some(DigitsValue(t) as int)
    else None
  }

  /** The whitespace `int(text)` skips around a literal: space and the
      control characters tab to carriage return (9-13). Unlike `str.strip`, it
      does not skip the information separators 28-31. */
  predicate IsIntSpace(c: char) {
    c == ' ' || 9 <= c as int <= 13
  }

  /** `s` without the leading and trailing characters `int` skips. */
  function IntStrip(s: string): (r: string)
    ensures |r| <= |s|
    ensures r == [] || (!IsIntSpace(r[0]) && !IsIntSpace(r[|r| - 1]))
  {
    TrimEndWhere(TrimStartWhere(s, IsIntSpace), IsIntSpace)
  }

  /** What `IntStrip` keeps is the part of `s` from `a` on, and only `int`'s
      spaces are cut off before and after it. */
  lemma IntStripCuts(s: string) returns (a: nat)
    ensures a + |IntStrip(s)| <= |s|
    ensures forall k :: 0 <= k < |IntStrip(s)| ==> IntStrip(s)[k] == s[a + k]
    ensures forall i :: 0 <= i < a ==> IsIntSpace(s[i])
    ensures forall i :: a + |IntStrip(s)| <= i < |s| ==> IsIntSpace(s[i])
  {
    a := TrimsCut(s, IsIntSpace, IntStrip(s));
  }

  /** Text without `int`'s spaces at either end is left as it is. */
  lemma IntStripFixed(s: string)
    requires s == [] || (!IsIntSpace(s[0]) && !IsIntSpace(s[|s| - 1]))
    ensures IntStrip(s) == s
  {
  }

  /** Python's `int(text)`: the spaces `int` skips around the text are
      ignored, then an optional sign and at least one digit; anything else
      raises `ValueError`, which is `None` here. */
  function ParseIntText(s: string): (r: Option<int>)
    ensures r.Some? <==> IsIntLiteral(IntStrip(s))
    ensures r.Some? ==> NoSpace(IntStrip(s))
  {
    ParseIntLiteral(IntStrip(s))
  }

  /** On text `str.strip` has already trimmed, `int` reads the literal as it
      stands. */
  lemma ParseTrimmed(s: string)
    requires IsTrimmed(s)
    ensures ParseIntText(s) == ParseIntLiteral(s)
  {
    IntStripFixed(s);
  }

  /** `int` does not skip an information separator that `str.strip` removes:
      `int("\U{1c}5")` raises, while `int("\U{1c}5".strip())` is 5. */
  lemma SeparatorIsNotIntSpace()
    ensures ParseIntText("\U{1c}5") == None
    ensures Strip("\U{1c}5") == "5" && ParseIntText(Strip("\U{1c}5")) == Some(5)
  {
    IntRejectsSeparator();
    StripDropsSeparator();
    ParseDigits(5);
    assert NatToDigits(5) == "5";
  }

  lemma IntRejectsSeparator()
    ensures ParseIntText("\U{1c}5") == None
  {
    var s := "\U{1c}5";
    assert s[0] == 28 as char && s[|s| - 1] == '5';
    NoSignNoDigit(s);
  }

  /** Text that starts with a character other than `int`'s spaces, a sign or
      a digit is not an integer. */
  lemma NoSignNoDigit(s: string)
    requires s != [] && !IsIntSpace(s[0]) && !IsIntSpace(s[|s| - 1])
    requires !IsDigit(s[0]) && s[0] != '-' && s[0] != '+'
    ensures ParseIntText(s) == None
  {
    IntStripFixed(s);
  }

  lemma StripDropsSeparator()
    ensures Strip("\U{1c}5") == "5"
  {
    var s := "\U{1c}5";
    assert IsSpace(s[0]) && s[1..] == "5";
    TrimStartSpace(s);
    TrimStartStops("5");
    TrimEndStops("5");
  }

  /** `int(str(n)) == n`. */
  lemma ParseIntRoundTrip(n: int)
    ensures ParseIntText(IntToString(n)) == Some(n)
  {
    var s := IntToString(n);
    IntStripFixed(s);
    if n < 0 {
      assert s[1..] == NatToDigits(-n);
      DigitsRoundTrip(-n);
    } else {
      DigitsRoundTrip(n);
    }
  }

  /** Reading the digits of a natural gives that natural. */
  lemma ParseDigits(n: nat)
    ensures ParseIntText(NatToDigits(n)) == Some(n)
  {
    ParseIntRoundTrip(n);
  }

  /** Text made of the digit zero only. */
  predicate AllZeros(z: string) {
    forall i :: 0 <= i < |z| ==> z[i] == '0'
  }

  /** The signs `int` accepts in front of the digits: none, `+` or `-`. */
  predicate IsSign(sign: string) {
    sign == "" || sign == "+" || sign == "-"
  }

  /** The value `n` carries under `sign`. */
  function Signed(sign: string, n: nat): int {
    if sign == "-" then -(n as int) else n
  }

  /** A run of zeros is worth nothing. */
  lemma {:induction false} ZerosOnly(z: string)
    requires AllZeros(z)
    ensures AllDigits(z) && DigitsValue(z) == 0
    decreases |z|
  {
    if z != [] {
      ZerosOnly(z[..|z| - 1]);
    }
  }

  /** Leading zeros do not change the value of a digit string. */
  lemma {:induction false} ZerosValue(z: string, ds: string)
    requires AllZeros(z) && AllDigits(ds)
    ensures AllDigits(z + ds) && DigitsValue(z + ds) == DigitsValue(ds)
    decreases |ds|
  {
    ZerosOnly(z);
    if ds == [] {
      assert z + ds == z;
    } else {
      var n := |ds| - 1;
      ZerosValue(z, ds[..n]);
      assert (z + ds)[..|z + ds| - 1] == z + ds[..n];
    }
  }

  /** A digit string that does not start with zero is worth at least one. */
  lemma {:induction false} LeadingDigitValue(ds: string)
    requires ds != [] && AllDigits(ds) && ds[0] != '0'
    ensures DigitsValue(ds) >= 1
    decreases |ds|
  {
    if |ds| > 1 {
      LeadingDigitValue(ds[..|ds| - 1]);
    }
  }

  /** A digit string without leading zeros (or the single digit `0`) is what
      `str` writes for its value. */
  lemma {:induction false} CanonicalDigits(ds: string)
    requires ds != [] && AllDigits(ds)
    requires ds[0] != '0' || |ds| == 1
    ensures NatToDigits(DigitsValue(ds)) == ds
    decreases |ds|
  {
    var c := ds[|ds| - 1];
    if |ds| == 1 {
      assert ds[..0] == [];
      assert DigitChar(DigitValue(c)) == c;
    } else {
      var p := ds[..|ds| - 1];
      CanonicalDigits(p);
      LeadingDigitValue(p);
      var v := DigitsValue(p) * 10 + DigitValue(c);
      assert v / 10 == DigitsValue(p) && v % 10 == DigitValue(c);
      assert DigitChar(DigitValue(c)) == c;
      assert ds == p + [c];
    }
  }

  /** Every non-empty digit string is a run of zeros followed by `str(n)`
      for its value `n`. */
  lemma {:induction false} SplitZeros(ds: string) returns (z: string, n: nat)
    requires ds != [] && AllDigits(ds)
    ensures AllZeros(z) && ds == z + NatToDigits(n)
    decreases |ds|
  {
    if ds[0] == '0' && |ds| > 1 {
      var z', n' := SplitZeros(ds[1..]);
      z, n := "0" + z', n';
      assert ds == [ds[0]] + ds[1..];
    } else {
      z, n := "", DigitsValue(ds);
      CanonicalDigits(ds);
    }
  }

  /** An optional sign, any number of zeros and the digits of `n` read as
      `n` under that sign: `int("+007") == 7`, `int("-0") == 0`. */
  lemma ParseSpelled(sign: string, z: string, n: nat)
    requires IsSign(sign) && AllZeros(z)
    ensures ParseIntLiteral(sign + z + NatToDigits(n)) == Some(Signed(sign, n))
  {
    var digits := NatToDigits(n);
    var ds := z + digits;
    assert ds != [] && AllDigits(ds) && DigitsValue(ds) == n by {
      ZerosValue(z, digits);
      DigitsRoundTrip(n);
    }
    assert sign + z + digits == sign + ds;
    SignedLiteral(sign, ds);
  }

  /** A sign in front of a digit string gives its value under that sign. */
  lemma SignedLiteral(sign: string, ds: string)
    requires IsSign(sign) && ds != [] && AllDigits(ds)
    ensures ParseIntLiteral(sign + ds) == Some(Signed(sign, DigitsValue(ds)))
  {
    if sign == "" {
      assert sign + ds == ds;
    } else {
      assert (sign + ds)[0] == sign[0] && (sign + ds)[1..] == ds;
    }
  }

  /** Every integer literal is spelled that way, so `ParseSpelled` gives the
      value of each one. */
  lemma LiteralSpelling(t: string) returns (sign: string, z: string, n: nat)
    requires IsIntLiteral(t)
    ensures IsSign(sign) && AllZeros(z) && t == sign + z + NatToDigits(n)
    ensures ParseIntLiteral(t) == Some(Signed(sign, n))
  {
    if t[0] == '-' || t[0] == '+' {
      sign := [t[0]];
      z, n := SplitZeros(t[1..]);
      assert t == sign + t[1..];
    } else {
      sign := "";
      z, n := SplitZeros(t);
    }
    ParseSpelled(sign, z, n);
  }

  /** `int` reads a spelled integer with its own spaces on either side. */
  lemma ParseSpelledText(pre: string, sign: string, z: string, n: nat, post: string)
    requires forall i :: 0 <= i < |pre| ==> IsIntSpace(pre[i])
    requires forall i :: 0 <= i < |post| ==> IsIntSpace(post[i])
    requires IsSign(sign) && AllZeros(z)
    ensures ParseIntText(pre + sign + z + NatToDigits(n) + post) == Some(Signed(sign, n))
  {
    var digits := NatToDigits(n);
    var m := sign + z + digits;
    assert m[|m| - 1] == digits[|digits| - 1];
    assert m[0] == if sign != "" then sign[0] else if z != [] then '0' else digits[0];
    assert pre + sign + z + digits + post == pre + (m + post);
    TrimStartPadded(pre, m + post, IsIntSpace);
    TrimEndPadded(m, post, IsIntSpace);
    ParseSpelled(sign, z, n);
  }

  /** Whatever `int` accepts is such a spelling once its spaces are cut off,
      and the result is its value. */
  lemma ParseIntValue(s: string) returns (sign: string, z: string, n: nat)
    requires ParseIntText(s).Some?
    ensures IsSign(sign) && AllZeros(z) && IntStrip(s) == sign + z + NatToDigits(n)
    ensures ParseIntText(s) == Some(Signed(sign, n))
  {
    sign, z, n := LiteralSpelling(IntStrip(s));
  }

  /** `int(" -007\n") == -7`. */
  lemma PaddedLiteralExample()
    ensures ParseIntText(" -007\n") == Some(-7)
  {
    assert NatToDigits(7) == "7";
    assert " -007\n" == " " + "-" + "00" + NatToDigits(7) + "\n";
    ParseSpelledText(" ", "-", "00", 7, "\n");
  }
}
