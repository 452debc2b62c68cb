/**
 * Python's `float(str)` restricted to plain decimal literals: surrounding
 * whitespace, an optional sign, digits, an optional point and fraction
 * digits, at least one digit overall.  Values are exact reals.
 */
module PyFloat {
  import opened Wrappers
  import opened Strings

  /** Index of the first occurrence of `c` in `s`, or `|s|` when there is none. */
  function IndexOfChar(s: string, c: char): (i: nat)
    ensures i <= |s| && (i < |s| ==> s[i] == c)
    ensures forall j :: 0 <= j < i ==> s[j] != c
  {
    if s == [] then 0
    else if s[0] == c then 0
    else IndexOfChar(s[1..], c) + 1
  }

  predicate HasDigit(s: string) { exists i :: 0 <= i < |s| && IsDigit(s[i]) }

  /**
   * The exact value of the literal `ip.fp`: each fraction digit moved into
   * the integer part divides the value by ten.
   */
  function DecimalValue(ip: string, fp: string): (v: real)
    requires AllDigits(ip) && AllDigits(fp)
    ensures v >= 0.0
    decreases |fp|
  {
    if fp == [] then DigitsValue(ip) as real
    else
      assert AllDigits(ip + [fp[0]]) by { assert IsDigit(fp[0]); }
      DecimalValue(ip + [fp[0]], fp[1..]) / 10.0
  }

  /** An unsigned literal: `ddd`, `ddd.`, `.ddd` or `ddd.ddd`. */
  function ParseUnsigned(s: string): (r: Option<real>)
    ensures r.Some? ==> r.value >= 0.0
  {
    var k := IndexOfChar(s, '.');
    var ip := s[..k];
    if k == |s| then
      if |ip| > 0 && AllDigits(ip) then
        Some(DigitsValue(ip) as real)
      else None
    else
      var fp := s[k + 1..];
      if AllDigits(ip) && AllDigits(fp) && |ip| + |fp| > 0 then
        Some(DecimalValue(ip, fp))
      else None
  }

  /** `float(t)` for a string with no surrounding whitespace. */
  function ParseSigned(t: string): Option<real>
  {
    if t != [] && (t[0] == '+' || t[0] == '-') then
      match ParseUnsigned(t[1..])
      case None => None
      case Some(v) =>
        Some(if t[0] == '-' then -v else v)
    else ParseUnsigned(t)
  }

  /** `float(s)` on the decimal subset; `None` where Python raises ValueError. */
  function Float(s: string): Option<real>
  {
    ParseSigned(Strip(s))
  }

  lemma {:induction false} StripKeepsDigit(s: string)
    ensures HasDigit(Strip(s)) ==> HasDigit(s)
  {
    var t := Strip(s);
    if HasDigit(t) {
      var i :| 0 <= i < |t| && IsDigit(t[i]);
      var l := LStrip(s);
      LStripSuffix(s);
      assert t == RStrip(l);
      assert t[i] == l[i];
      assert l[i] == s[|s| - |l| + i];
    }
  }

  lemma {:induction false} IndexOfCharAt(s: string, c: char, i: nat)
    requires i < |s| && s[i] == c && forall j :: 0 <= j < i ==> s[j] != c
    ensures IndexOfChar(s, c) == i
  {
  }

  lemma {:induction false} IndexOfCharAbsent(s: string, c: char)
    requires forall j :: 0 <= j < |s| ==> s[j] != c
    ensures IndexOfChar(s, c) == |s|
  {
  }

  lemma {:induction false} ParseUnsignedOfDecimal(ip: string, fp: string)
    requires |ip| > 0 && AllDigits(ip) && AllDigits(fp)
    ensures ParseUnsigned(ip + "." + fp) == Some(DecimalValue(ip, fp))
  {
    var s := ip + "." + fp;
    assert s[..|ip|] == ip;
    IndexOfCharAt(s, '.', |ip|);
    assert s[|ip| + 1..] == fp;
  }

  /** A literal that starts with a digit and has no surrounding space is parsed unsigned. */
  lemma {:induction false} FloatUnsigned(s: string)
    requires s != [] && IsDigit(s[0]) && !IsSpace(s[|s| - 1])
    ensures Float(s) == ParseUnsigned(s)
  {
    assert Strip(s) == s;
  }

  /** A literal that starts with a sign and has no surrounding space keeps that sign. */
  lemma {:induction false} FloatSigned(s: string)
    requires |s| >= 2 && (s[0] == '+' || s[0] == '-') && !IsSpace(s[|s| - 1])
    ensures ParseUnsigned(s[1..]).Some? ==>
      Float(s) == Some(if s[0] == '-' then -ParseUnsigned(s[1..]).value else ParseUnsigned(s[1..]).value)
  {
    assert Strip(s) == s;
    assert Float(s) == ParseSigned(s);
  }

  /** A digit string followed by a point and fraction digits reads back as its value. */
  lemma {:induction false} FloatOfDecimal(ip: string, fp: string)
    requires |ip| > 0 && AllDigits(ip) && AllDigits(fp)
    ensures Float(ip + "." + fp) == Some(DecimalValue(ip, fp))
  {
    var s := ip + "." + fp;
    assert s[0] == ip[0];
    assert !IsSpace(s[|s| - 1]) by { if fp != [] { assert s[|s| - 1] == fp[|fp| - 1]; } }
    FloatUnsigned(s);
    ParseUnsignedOfDecimal(ip, fp);
  }

  /** A signed literal keeps its sign. */
  lemma {:induction false} FloatOfSignedDecimal(sign: char, ip: string, fp: string)
    requires sign == '+' || sign == '-'
    requires |ip| > 0 && AllDigits(ip) && AllDigits(fp)
    ensures Float([sign] + (ip + "." + fp))
         == Some(if sign == '-' then -DecimalValue(ip, fp) else DecimalValue(ip, fp))
  {
    var u := ip + "." + fp;
    var s := [sign] + u;
    LastNotSpace(ip, fp);
    assert s[|s| - 1] == u[|u| - 1];
    NoOuterSpace(s);
    ParseSignedSign(sign, u);
    ParseUnsignedOfDecimal(ip, fp);
  }

  lemma {:induction false} NoOuterSpace(s: string)
    requires s != [] && !IsSpace(s[0]) && !IsSpace(s[|s| - 1])
    ensures Float(s) == ParseSigned(s)
  {
  }

  lemma {:induction false} ParseSignedSign(sign: char, u: string)
    requires sign == '+' || sign == '-'
    ensures ParseSigned([sign] + u)
         == (if ParseUnsigned(u).None? then None
             else Some(if sign == '-' then -ParseUnsigned(u).value else ParseUnsigned(u).value))
  {
    assert ([sign] + u)[1..] == u;
  }

  lemma {:induction false} LastNotSpace(ip: string, fp: string)
    requires AllDigits(fp)
    ensures !IsSpace((ip + "." + fp)[|ip + "." + fp| - 1])
  {
    var u := ip + "." + fp;
    if fp != [] { assert u[|u| - 1] == fp[|fp| - 1]; } else { assert u[|u| - 1] == '.'; }
  }

  /** A digit string with no point reads back as its integer value. */
  lemma {:induction false} FloatOfDigits(ip: string)
    requires |ip| > 0 && AllDigits(ip)
    ensures Float(ip) == Some(DigitsValue(ip) as real)
  {
    FloatUnsigned(ip);
    IndexOfCharAbsent(ip, '.');
    assert ip[..|ip|] == ip;
  }
}
