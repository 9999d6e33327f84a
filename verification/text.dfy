/** The few JavaScript string operations the capsule logic relies on:
    `String.prototype.trim`, `String(n)` for an integral number,
    `parseInt(s, 10)` and `padStart(2, '0')`. Strings are sequences of
    Unicode scalar values. */
module Text {
  import opened Wrappers

  /** JavaScript's WhiteSpace and LineTerminator code points, the characters
      that `trim` removes and that `parseInt` skips at the start. */
  predicate IsSpace(c: char) {
    || c == '\t' || c == '\n' || c == '\U{000B}' || c == '\U{000C}' || c == '\r'
    || c == ' ' || c == '\U{00A0}' || c == '\U{1680}'
    || ('\U{2000}' <= c <= '\U{200A}')
    || c == '\U{2028}' || c == '\U{2029}' || c == '\U{202F}' || c == '\U{205F}'
    || c == '\U{3000}' || c == '\U{FEFF}'
  }

  /** Every character of `s` is white space (vacuously so for ""). */
  predicate IsBlank(s: string) {
    forall i :: 0 <= i < |s| ==> IsSpace(s[i])
  }

  /** Drops the leading white space: the result is the suffix of `s` that
      starts at its first non-space character. */
  function TrimStart(s: string): (r: string)
    ensures |r| <= |s| && r == s[|s| - |r|..]
    ensures IsBlank(s[..|s| - |r|])
    ensures r != [] ==> !IsSpace(r[0])
  {
    if s != [] && IsSpace(s[0]) then
      var r := TrimStart(s[1..]);
      TrimStartStep(s, r);
      r
    else s
  }

  /** One step of `TrimStart`: a leading space joins the blank prefix. */
  lemma TrimStartStep(s: string, r: string)
    requires s != [] && IsSpace(s[0])
    requires |r| <= |s| - 1 && r == s[1..][|s| - 1 - |r|..] && IsBlank(s[1..][..|s| - 1 - |r|])
    ensures |r| <= |s| && r == s[|s| - |r|..] && IsBlank(s[..|s| - |r|])
  {
    var n := |s| - |r|;
    assert s[n..] == s[1..][n - 1..];
    assert forall i :: 1 <= i < n ==> s[..n][i] == s[1..][..n - 1][i - 1];
  }

  /** Drops the trailing white space: the result is the prefix of `s` that
      ends at its last non-space character. */
  function TrimEnd(s: string): (r: string)
    ensures |r| <= |s| && r == s[..|r|]
    ensures IsBlank(s[|r|..])
    ensures r != [] ==> !IsSpace(r[|r| - 1])
  {
    if s != [] && IsSpace(s[|s| - 1]) then TrimEnd(s[..|s| - 1]) else s
  }

  /** `s.trim()`: the result neither starts nor ends with white space, and
      it is empty exactly when `s` is blank. */
  function Trim(s: string): (r: string)
    ensures |r| <= |s|
    ensures r != [] ==> Unpadded(r)
    ensures r == [] <==> IsBlank(s)
  {
    var t := TrimStart(s);
    var r := TrimEnd(t);
    TrimPieces(s, t, r);
    r
  }

  /** Non-empty, and neither starting nor ending with white space. */
  predicate Unpadded(s: string) {
    s != [] && !IsSpace(s[0]) && !IsSpace(s[|s| - 1])
  }

  /** `t` is `s` with blank text cut from both ends: `s` is blank text,
      then `t`, then blank text. */
  predicate TrimmedFrom(t: string, s: string) {
    exists a :: 0 <= a <= a + |t| <= |s| && s[a..a + |t|] == t
                && IsBlank(s[..a]) && IsBlank(s[a + |t|..])
  }

  /** Trimming removes white space only. */
  lemma TrimRemovesOnlySpace(s: string)
    ensures TrimmedFrom(Trim(s), s)
  {
    var t := TrimStart(s);
    TrimEndFrom(s, t, TrimEnd(t));
  }

  /** Cutting blank text off the end of `t`, itself cut from the start of
      `s`, cuts blank text off both ends of `s`. */
  lemma TrimEndFrom(s: string, t: string, r: string)
    requires |t| <= |s| && t == s[|s| - |t|..] && IsBlank(s[..|s| - |t|])
    requires |r| <= |t| && r == t[..|r|] && IsBlank(t[|r|..])
    requires t != [] ==> !IsSpace(t[0])
    requires r != [] ==> !IsSpace(r[|r| - 1])
    ensures TrimmedFrom(r, s)
  {
    var a := |s| - |t|;
    TrimPieces(s, t, r);
    assert s[a..a + |r|] == r && IsBlank(s[..a]) && IsBlank(s[a + |r|..]);
  }

  /** An unpadded string is its own trim. */
  lemma TrimUnpadded(s: string)
    requires Unpadded(s)
    ensures Trim(s) == s
  {
    assert TrimStart(s) == s;
    assert TrimEnd(s) == s;
  }

  /** Trimming is idempotent. */
  lemma TrimIdempotent(s: string)
    ensures Trim(Trim(s)) == Trim(s)
  {
    if Trim(s) != [] {
      TrimUnpadded(Trim(s));
    }
  }

  lemma BlankConcat(a: string, b: string)
    requires IsBlank(a) && IsBlank(b)
    ensures IsBlank(a + b)
  {
    forall i | 0 <= i < |a + b| ensures IsSpace((a + b)[i]) {
      if i < |a| { assert (a + b)[i] == a[i]; } else { assert (a + b)[i] == b[i - |a|]; }
    }
  }

  /** What `Trim` needs from its two halves, stated without them: `t` is a
      suffix of `s` after blank text, `r` a prefix of `t` before blank text. */
  lemma TrimPieces(s: string, t: string, r: string)
    requires |t| <= |s| && t == s[|s| - |t|..] && IsBlank(s[..|s| - |t|])
    requires |r| <= |t| && r == t[..|r|] && IsBlank(t[|r|..])
    requires t != [] ==> !IsSpace(t[0])
    requires r != [] ==> !IsSpace(r[|r| - 1])
    ensures var a := |s| - |t|;
            && 0 <= a <= a + |r| <= |s| && s[a..a + |r|] == r
            && IsBlank(s[..a]) && IsBlank(s[a + |r|..])
    ensures r != [] ==> Unpadded(r)
    ensures r == [] <==> IsBlank(s)
  {
    var a := |s| - |t|;
    assert s[a..a + |r|] == r;
    assert s[a + |r|..] == t[|r|..];
    if r == [] {
      assert s == s[..a] + t[|r|..];
      BlankConcat(s[..a], t[|r|..]);
    } else {
      assert s[a] == t[0] == r[0];
    }
  }

  predicate IsDigit(c: char) {
    '0' <= c <= '9'
  }

  predicate AllDigits(s: string) {
    forall i :: 0 <= i < |s| ==> IsDigit(s[i])
  }

  function DigitValue(c: char): (d: nat)
    requires IsDigit(c)
    ensures d < 10
  {
    c as int - '0' as int
  }

  function DigitChar(d: nat): (c: char)
    requires d < 10
    ensures IsDigit(c) && DigitValue(c) == d
  {
    ('0' as int + d) as char
  }

  /** The number a string of decimal digits denotes (leading zeros allowed). */
  function DigitsValue(s: string): nat
    requires AllDigits(s)
  {
    if s == [] then 0 else DigitsValue(s[..|s| - 1]) * 10 + DigitValue(s[|s| - 1])
  }

  /** `String(n)` for a non-negative integer below 10^21: its shortest
      decimal digits, which denote `n` again; there is a leading zero only
      for zero itself, and the text has two or more digits exactly from ten
      upwards. */
  function NatToDecimal(n: nat): (r: string)
    ensures r != [] && AllDigits(r)
    ensures DigitsValue(r) == n
    ensures |r| > 1 ==> r[0] != '0'
    ensures |r| >= 2 <==> n >= 10
  {
    if n < 10 then [DigitChar(n)]
    else
      var front := NatToDecimal(n / 10);
      var r := front + [DigitChar(n % 10)];
      assert r[..|r| - 1] == front;
      r
  }

  /** `String(n)` for an integer `n`: a minus sign in front of the digits of
      a negative number. */
  function IntToDecimal(n: int): (r: string)
    ensures r != [] && (r[0] == '-' || IsDigit(r[0]))
  {
    if n < 0 then "-" + NatToDecimal(-n) else NatToDecimal(n)
  }

  /** The longest prefix of `s` made of decimal digits. */
  function LeadingDigits(s: string): (r: string)
    ensures |r| <= |s| && r == s[..|r|] && AllDigits(r)
    ensures |r| < |s| ==> !IsDigit(s[|r|])
  {
    if s != [] && IsDigit(s[0]) then [s[0]] + LeadingDigits(s[1..]) else []
  }

  /** `parseInt(s, 10)`: skip leading white space, read an optional sign,
      then the longest run of digits; `NaN` (here `None`) when there is no
      digit. The JavaScript result `-0` is the integer 0. */
  function ParseInt(s: string): Option<int> {
    ParseSigned(TrimStart(s))
  }

  function ParseSigned(t: string): Option<int> {
    if t != [] && t[0] == '-' then
      match ParseDigits(t[1..])
      case None => None
      case Some(v) => Some(-v)
    else if t != [] && t[0] == '+' then ParseDigits(t[1..])
    else ParseDigits(t)
  }

  function ParseDigits(u: string): Option<int> {
    var ds := LeadingDigits(u);
    if ds == [] then None else Some(DigitsValue(ds))
  }

  lemma {:induction false} LeadingDigitsOfDigits(s: string)
    requires AllDigits(s)
    ensures LeadingDigits(s) == s
  {
    if s != [] {
      LeadingDigitsOfDigits(s[1..]);
    }
  }

  lemma TrimStartKeeps(s: string)
    requires s != [] && !IsSpace(s[0])
    ensures TrimStart(s) == s
  {
  }

  /** A non-empty run of digits parses as the number it denotes. */
  lemma ParseDigitString(ds: string)
    requires ds != [] && AllDigits(ds)
    ensures ParseInt(ds) == Some(DigitsValue(ds) as int)
  {
    TrimStartKeeps(ds);
    ParseDigitsOfDigits(ds);
    assert ParseSigned(ds) == ParseDigits(ds);
  }

  /** A minus sign followed by a non-empty run of digits parses as the
      negated number. */
  lemma ParseNegatedDigitString(ds: string)
    requires ds != [] && AllDigits(ds)
    ensures ParseInt("-" + ds) == Some(-(DigitsValue(ds) as int))
  {
    var s := "-" + ds;
    assert s[0] == '-' && s[1..] == ds;
    TrimStartKeeps(s);
    ParseDigitsOfDigits(ds);
    assert ParseSigned(s) == Some(-(DigitsValue(ds) as int));
  }

  lemma ParseDigitsOfDigits(ds: string)
    requires ds != [] && AllDigits(ds)
    ensures ParseDigits(ds) == Some(DigitsValue(ds) as int)
  {
    LeadingDigitsOfDigits(ds);
  }

  /** Round trip: `parseInt(String(n), 10) == n` for every integer `n`. */
  lemma ParseIntOfDecimal(n: int)
    ensures ParseInt(IntToDecimal(n)) == Some(n)
  {
    if n < 0 {
      ParseNegatedDigitString(NatToDecimal(-n));
    } else {
      ParseDigitString(NatToDecimal(n));
    }
  }

  /** `String(n)` tells integers apart. */
  lemma IntToDecimalInjective(a: int, b: int)
    requires IntToDecimal(a) == IntToDecimal(b)
    ensures a == b
  {
    ParseIntOfDecimal(a);
    ParseIntOfDecimal(b);
  }

  /** `s.padStart(2, '0')`: zeros in front of `s` up to length two; a string
      already two or more long is kept as it is. */
  function PadStart2(s: string): (r: string)
    ensures |r| == if |s| >= 2 then |s| else 2
    ensures r[|r| - |s|..] == s
    ensures forall i :: 0 <= i < |r| - |s| ==> r[i] == '0'
  {
    if |s| >= 2 then s else if |s| == 1 then "0" + s else "00"
  }

  lemma {:induction false} LeadingZeroValue(s: string)
    requires AllDigits(s)
    ensures AllDigits("0" + s) && DigitsValue("0" + s) == DigitsValue(s)
  {
    if s != [] {
      var z := "0" + s;
      assert z[..|z| - 1] == "0" + s[..|s| - 1];
      LeadingZeroValue(s[..|s| - 1]);
    }
  }

  /** A part below 100 is shown as exactly two digits that still read as
      the part; a larger one is shown unpadded. Either way the text parses
      back to the number. */
  lemma PaddedPart(n: nat)
    ensures var r := PadStart2(NatToDecimal(n));
            && AllDigits(r) && DigitsValue(r) == n
            && (n < 100 ==> |r| == 2)
            && (n >= 100 ==> r == NatToDecimal(n))
            && ParseInt(r) == Some(n)
  {
    var d := NatToDecimal(n);
    var r := PadStart2(d);
    if |d| == 1 {
      LeadingZeroValue(d);
    } else if n < 100 {
      assert |d| == 2 by {
        var front := NatToDecimal(n / 10);
        assert |front| == 1;
      }
    } else {
      assert |d| >= 3 by {
        var front := NatToDecimal(n / 10);
        assert |front| >= 2;
      }
    }
    ParseDigitString(r);
  }
}
