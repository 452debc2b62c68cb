/**
 * Cell parsers of the Investing.com scraper (update_cds_investing.py):
 * pt-BR numbers scaled by 1/100, signed percentages with a regex
 * fallback, and day-first dates.  A cell is `None` when pandas holds no
 * value for it.
 */
module InvestingCells {
  import opened Wrappers
  import opened Strings
  import opened PyFloat
  import opened Dates

  /** Lower-cased spellings `_clean_number` treats as "no value". */
  predicate IsNullToken(t: string) {
    t == "nan" || t == "none" || t == "null" || t == "-"
  }

  /** The text `_clean_number` hands to `float()`: points dropped, comma made a point, `%` dropped. */
  function CleanDigits(t: string): string
  {
    RemoveChar(ReplaceChar(RemoveChar(t, '.'), ',', '.'), '%')
  }

  /**
   * `_clean_number`: `None` for a missing, blank or null-token cell and for
   * text that is not a number after the pt-BR rewrite; otherwise the
   * number divided by 100.  It never raises.
   */
  function CleanNumber(cell: Option<string>): (r: Option<real>)
    ensures cell.None? ==> r.None?
    ensures cell.Some? && (Strip(cell.value) == [] || IsNullToken(Lower(Strip(cell.value)))) ==> r.None?
  {
    match cell
    case None => None
    case Some(s) =>
      var t := Strip(s);
      if t == [] || IsNullToken(Lower(t)) then None
      else Percent(Float(CleanDigits(t)))
  }

  /** A parsed number divided by 100. */
  function Percent(x: Option<real>): Option<real>
  {
    match x
    case None => None
    case Some(v) => Some(v / 100.0)
  }

  lemma {:induction false} PercentOf(v: real)
    ensures Percent(Some(v)) == Some(v / 100.0)
  {
  }

  /** No text holding a comma is a null token. */
  lemma {:induction false} CommaNotToken(t: string, k: nat)
    requires k < |t| && t[k] == ','
    ensures !IsNullToken(Lower(t))
  {
    LowerAt(t);
    assert Lower(t)[k] == ',';
  }

  /** On text with no surrounding space that is not a null token, `_clean_number` is `float()` / 100. */
  lemma {:induction false} CleanNumberOfText(s: string)
    requires s != [] && !IsSpace(s[0]) && !IsSpace(s[|s| - 1]) && !IsNullToken(Lower(s))
    ensures CleanNumber(Some(s)) == Percent(Float(CleanDigits(s)))
  {
    assert Strip(s) == s;
  }

  /** Digits and points only. */
  predicate IsGrouped(ip: string) {
    forall i :: 0 <= i < |ip| ==> IsDigit(ip[i]) || ip[i] == '.'
  }

  lemma {:induction false} GroupedDigits(ip: string)
    requires IsGrouped(ip)
    ensures AllDigits(RemoveChar(ip, '.'))
  {
    var d := RemoveChar(ip, '.');
    RemoveCharSubset(ip, '.');
    forall i | 0 <= i < |d| ensures IsDigit(d[i]) {
      assert d[i] in d;
      var j :| 0 <= j < |ip| && ip[j] == d[i];
    }
  }

  /** A string of digits holds no other character. */
  lemma {:induction false} DigitsLack(d: string, c: char)
    requires AllDigits(d) && !IsDigit(c)
    ensures c !in d
  {
    forall i | 0 <= i < |d| ensures d[i] != c { assert IsDigit(d[i]); }
  }

  /** Dropping the thousands points of `ip,fp%`. */
  lemma {:induction false} DropPoints(ip: string, fp: string, tail: string)
    requires AllDigits(fp) && (tail == "" || tail == "%")
    ensures RemoveChar(ip + "," + fp + tail, '.') == RemoveChar(ip, '.') + "," + fp + tail
  {
    var rest := "," + fp + tail;
    assert ip + "," + fp + tail == ip + rest;
    RemoveCharConcat(ip, rest, '.');
    DigitsLack(fp, '.');
    assert '.' !in rest;
    assert RemoveChar(ip, '.') + "," + fp + tail == RemoveChar(ip, '.') + rest;
  }

  /** The number a pt-BR literal `ip,fp` denotes: thousands points ignored. */
  function PtBrValue(ip: string, fp: string): (v: real)
    requires IsGrouped(ip) && AllDigits(fp)
    ensures v >= 0.0
  {
    GroupedDigits(ip);
    DecimalValue(RemoveChar(ip, '.'), fp)
  }

  /** A grouped integer part with a digit keeps a digit once its points are dropped. */
  lemma {:induction false} GroupedHasDigit(ip: string)
    requires IsGrouped(ip) && HasDigit(ip)
    ensures |RemoveChar(ip, '.')| > 0
    decreases |ip|
  {
    if IsDigit(ip[0]) {
      assert RemoveChar(ip, '.') == [ip[0]] + RemoveChar(ip[1..], '.');
    } else {
      var i :| 0 <= i < |ip| && IsDigit(ip[i]);
      assert IsDigit(ip[1..][i - 1]);
      GroupedHasDigit(ip[1..]);
    }
  }

  /** Turning the decimal comma of `d,fp%` into a point. */
  lemma {:induction false} CommaToPoint(d: string, fp: string, tail: string)
    requires AllDigits(d) && AllDigits(fp) && (tail == "" || tail == "%")
    ensures ReplaceChar(d + "," + fp + tail, ',', '.') == d + "." + fp + tail
  {
    var x := d + "," + fp + tail;
    var y := d + "." + fp + tail;
    var r := ReplaceChar(x, ',', '.');
    ReplaceCharAt(x, ',', '.');
    forall i | 0 <= i < |y| ensures r[i] == y[i] {
      if i < |d| {
        assert x[i] == d[i] && y[i] == d[i] && IsDigit(d[i]);
      } else if i == |d| {
      } else if i < |d| + 1 + |fp| {
        assert x[i] == fp[i - |d| - 1] && y[i] == fp[i - |d| - 1] && IsDigit(fp[i - |d| - 1]);
      } else {
        assert x[i] == tail[i - |d| - 1 - |fp|] && y[i] == x[i];
      }
    }
  }

  /** Dropping the `%` of `d.fp%`. */
  lemma {:induction false} DropPercent(d: string, fp: string, tail: string)
    requires AllDigits(d) && AllDigits(fp) && (tail == "" || tail == "%")
    ensures RemoveChar(d + "." + fp + tail, '%') == d + "." + fp
  {
    var y := d + "." + fp;
    RemoveCharConcat(y, tail, '%');
    forall i | 0 <= i < |y| ensures y[i] != '%' {
      if i < |d| { assert y[i] == d[i] && IsDigit(d[i]); }
      else if i > |d| { assert y[i] == fp[i - |d| - 1] && IsDigit(fp[i - |d| - 1]); }
    }
    assert '%' !in y;
    assert RemoveChar(tail, '%') == [];
  }

  /** The three rewrites of `_clean_number` turn a pt-BR literal into a plain decimal. */
  lemma {:induction false} CleanDigitsPtBr(ip: string, fp: string, tail: string)
    requires IsGrouped(ip) && AllDigits(fp) && (tail == "" || tail == "%")
    ensures AllDigits(RemoveChar(ip, '.'))
    ensures CleanDigits(ip + "," + fp + tail) == RemoveChar(ip, '.') + "." + fp
  {
    GroupedDigits(ip);
    var d := RemoveChar(ip, '.');
    DropPoints(ip, fp, tail);
    CommaToPoint(d, fp, tail);
    DropPercent(d, fp, tail);
  }

  /**
   * A pt-BR literal — digits with `.` thousands separators, a decimal
   * comma, fraction digits and an optional `%` — reads back as its value
   * divided by 100.
   */
  lemma {:induction false} CleanNumberPtBr(s: string, ip: string, fp: string, tail: string, v: real)
    requires s == ip + "," + fp + tail
    requires IsGrouped(ip) && AllDigits(fp) && (tail == "" || tail == "%")
    requires HasDigit(ip) && v == PtBrValue(ip, fp)
    ensures CleanNumber(Some(s)) == Some(v / 100.0)
  {
    var d := RemoveChar(ip, '.');
    CleanDigitsPtBr(ip, fp, tail);
    PtBrEnds(ip, fp, tail);
    CommaNotToken(s, |ip|);
    CleanNumberOfText(s);
    GroupedHasDigit(ip);
    FloatOfDecimal(d, fp);
    var x := Float(CleanDigits(s));
    assert x == Some(v);
    assert CleanNumber(Some(s)) == Percent(x);
    PercentOf(v);
  }

  lemma {:induction false} PtBrEnds(ip: string, fp: string, tail: string)
    requires IsGrouped(ip) && AllDigits(fp) && (tail == "" || tail == "%")
    requires |ip| > 0
    ensures var s := ip + "," + fp + tail; !IsSpace(s[0]) && !IsSpace(s[|s| - 1]) && s[|ip|] == ','
  {
    var s := ip + "," + fp + tail;
    assert s[0] == ip[0];
    if tail != [] { assert s[|s| - 1] == '%'; }
    else if fp != [] { assert s[|s| - 1] == fp[|fp| - 1]; }
    else { assert s[|s| - 1] == ','; }
  }

  /** `_clean_number("1.234,56")` is 12.3456. */
  lemma {:induction false} CleanNumberThousands()
    ensures CleanNumber(Some("1.234,56")) == Some(12.3456)
  {
    ThousandsPieces();
    PtBrValueExample();
    CleanNumberPtBr("1.234,56", "1.234", "56", "", 1234.56);
  }

  /** "1.234,56" is the grouped part "1.234", a comma and the fraction "56". */
  lemma {:induction false} ThousandsPieces()
    ensures IsGrouped("1.234") && HasDigit("1.234") && AllDigits("56")
    ensures "1.234,56" == "1.234" + "," + "56" + ""
  {
    assert IsDigit("1.234"[0]);
  }

  lemma {:induction false} PtBrValueExample()
    ensures PtBrValue("1.234", "56") == 1234.56
  {
    assert "1.234" == "1" + "." + "234";
    DropOnePoint("1", "234");
    assert "1" + "234" == "1234";
    DecimalValueExample();
  }

  /** Removing the one point of `x.y`. */
  lemma {:induction false} DropOnePoint(x: string, y: string)
    requires '.' !in x && '.' !in y
    ensures RemoveChar(x + "." + y, '.') == x + y
  {
    assert x + "." + y == x + ("." + y);
    RemoveCharConcat(x, "." + y, '.');
    RemoveCharConcat(".", y, '.');
  }

  lemma {:induction false} DecimalValueExample()
    ensures DecimalValue("1234", "56") == 1234.56
  {
    assert "1234" + ['5'] == "12345" && "12345" + ['6'] == "123456";
    assert DigitsValue("123456") == 123456 by {
      assert "123456"[..5] == "12345" && "12345"[..4] == "1234";
      assert "1234"[..3] == "123" && "123"[..2] == "12" && "12"[..1] == "1";
    }
  }

  /**
   * A pt-BR integer — digits with `.` thousands separators and an optional
   * `%`, no comma — reads back as its digits' value divided by 100.
   */
  lemma {:induction false} CleanNumberGroupedInteger(s: string, ip: string, tail: string, v: real)
    requires s == ip + tail
    requires IsGrouped(ip) && (tail == "" || tail == "%")
    requires HasDigit(ip) && v == PtBrValue(ip, "")
    ensures CleanNumber(Some(s)) == Some(v / 100.0)
  {
    GroupedDigits(ip);
    GroupedHasDigit(ip);
    var d := RemoveChar(ip, '.');
    CleanDigitsGrouped(ip, tail);
    GroupedEnds(s, ip, tail);
    CleanNumberOfText(s);
    FloatOfDigits(d);
    assert v == DigitsValue(d) as real;
    var x := Float(CleanDigits(s));
    assert x == Some(v);
    assert CleanNumber(Some(s)) == Percent(x);
    PercentOf(v);
  }

  /** The rewrites of `_clean_number` leave just the digits of a pt-BR integer. */
  lemma {:induction false} CleanDigitsGrouped(ip: string, tail: string)
    requires IsGrouped(ip) && (tail == "" || tail == "%")
    ensures CleanDigits(ip + tail) == RemoveChar(ip, '.')
  {
    GroupedDigits(ip);
    var d := RemoveChar(ip, '.');
    RemoveCharConcat(ip, tail, '.');
    assert RemoveChar(tail, '.') == tail;
    assert ',' !in d + tail by {
      forall i | 0 <= i < |d + tail| ensures (d + tail)[i] != ',' {
        if i < |d| { assert IsDigit(d[i]); }
      }
    }
    ReplaceCharAbsent(d + tail, ',', '.');
    RemoveCharConcat(d, tail, '%');
    assert '%' !in d by { forall i | 0 <= i < |d| ensures d[i] != '%' { assert IsDigit(d[i]); } }
  }

  /** A pt-BR integer has no surrounding space and is not a null token. */
  lemma {:induction false} GroupedEnds(s: string, ip: string, tail: string)
    requires s == ip + tail
    requires IsGrouped(ip) && (tail == "" || tail == "%") && HasDigit(ip)
    ensures s != [] && !IsSpace(s[0]) && !IsSpace(s[|s| - 1]) && !IsNullToken(Lower(s))
  {
    assert !IsSpace(s[0]) by { assert s[0] == ip[0]; GroupedFirst(ip); }
    assert !IsSpace(s[|s| - 1]) by {
      if tail == [] { assert s[|s| - 1] == ip[|ip| - 1]; } else { assert s[|s| - 1] == '%'; }
    }
    LowerAt(s);
    var i :| 0 <= i < |ip| && IsDigit(ip[i]);
    assert IsDigit(Lower(s)[i]) by { assert s[i] == ip[i]; }
  }

  /** A grouped integer part starts with a digit or a point, never with a space. */
  lemma {:induction false} GroupedFirst(ip: string)
    requires IsGrouped(ip) && ip != []
    ensures !IsSpace(ip[0])
  {
  }

  /** `_clean_number("1.5")` is 0.15: a lone point is read as a thousands separator. */
  lemma {:induction false} CleanNumberPointIsThousands()
    ensures CleanNumber(Some("1.5")) == Some(0.15)
  {
    var ip := "1.5";
    DigitPointDigit(ip, '1', '5');
    TwoDigitsValue('1', '5');
    assert PtBrValue(ip, "") == 15.0;
    assert ip + "" == ip;
    CleanNumberGroupedInteger(ip, ip, "", 15.0);
  }

  /** `a.b` is a grouped integer part whose digits are `ab`. */
  lemma {:induction false} DigitPointDigit(ip: string, a: char, b: char)
    requires ip == [a, '.', b] && IsDigit(a) && IsDigit(b)
    ensures IsGrouped(ip) && HasDigit(ip)
    ensures RemoveChar(ip, '.') == [a, b]
  {
    assert IsDigit(ip[0]);
    assert ip == [a] + (['.'] + [b]);
    RemoveCharConcat([a], ['.'] + [b], '.');
    RemoveCharConcat(['.'], [b], '.');
  }

  lemma {:induction false} TwoDigitsValue(a: char, b: char)
    requires IsDigit(a) && IsDigit(b)
    ensures DigitsValue([a, b]) == DigitValue(a) * 10 + DigitValue(b)
  {
    assert [a, b][..1] == [a];
    assert [a][..0] == [];
    assert DigitsValue([a]) == DigitsValue([]) * 10 + DigitValue(a);
    assert DigitsValue([a, b]) == DigitsValue([a]) * 10 + DigitValue(b);
  }

  /** Blank cells and the null tokens give no value. */
  lemma {:induction false} CleanNumberNullTokens(s: string)
    requires IsNullToken(Lower(Strip(s)))
    ensures CleanNumber(Some(s)).None?
  {
  }

  // ------------------------------------------------------------ change %

  /** End of the run of digits starting at `j`. */
  function DigitRunEnd(s: string, j: nat): (k: nat)
    requires j <= |s|
    ensures j <= k <= |s| && (k < |s| ==> !IsDigit(s[k]))
    ensures forall i :: j <= i < k ==> IsDigit(s[i])
    decreases |s| - j
  {
    if j < |s| && IsDigit(s[j]) then DigitRunEnd(s, j + 1) else j
  }

  /** Index where the digits of a match at `i` begin: after a sign that is followed by a digit. */
  function DigitStart(s: string, i: nat): (j: nat)
    requires i < |s|
    ensures j == i || j == i + 1
    ensures j < |s|
  {
    if (s[i] == '+' || s[i] == '-') && i + 1 < |s| && IsDigit(s[i + 1]) then i + 1 else i
  }

  /** The regex `[+-]?\d+(?:\.\d+)?` matched at index `i`, converted by `float()`. */
  function MatchAt(s: string, i: nat): (r: Option<real>)
    requires i < |s|
    ensures r.Some? <==> IsDigit(s[DigitStart(s, i)])
  {
    var j := DigitStart(s, i);
    if !IsDigit(s[j]) then None
    else
      var k := DigitRunEnd(s, j);
      var ip := s[j..k];
      assert AllDigits(ip);
      var v :=
        if k + 1 < |s| && s[k] == '.' && IsDigit(s[k + 1]) then
          var k2 := DigitRunEnd(s, k + 1);
          assert AllDigits(s[k + 1..k2]);
          DecimalValue(ip, s[k + 1..k2])
        else DigitsValue(ip) as real;
      Some(if j == i + 1 && s[i] == '-' then -v else v)
  }

  /** `re.search`: the leftmost match at or after `i`. */
  function SearchNumber(s: string, i: nat): Option<real>
    requires i <= |s|
    decreases |s| - i
  {
    if i == |s| then None
    else match MatchAt(s, i)
      case Some(v) => Some(v)
      case None => SearchNumber(s, i + 1)
  }

  /** The search succeeds exactly when a digit occurs at or after `i`. */
  lemma {:induction false} SearchNumberFinds(s: string, i: nat)
    requires i <= |s|
    ensures SearchNumber(s, i).Some? <==> exists k :: i <= k < |s| && IsDigit(s[k])
    decreases |s| - i
  {
    if i < |s| {
      SearchNumberFinds(s, i + 1);
      if MatchAt(s, i).Some? {
        assert IsDigit(s[DigitStart(s, i)]);
      } else {
        assert !IsDigit(s[i]);
      }
    }
  }

  /** The text `_parse_change_pct` hands to `float()`: stripped, spaces and `%` dropped, comma made a point. */
  function PctText(s: string): string {
    ReplaceChar(RemoveChar(RemoveChar(Strip(s), ' '), '%'), ',', '.')
  }

  /**
   * `_parse_change_pct`: `float()` of the rewritten text, not scaled;
   * failing that, the first signed decimal found in it; failing that `None`.
   */
  function ParseChangePct(cell: Option<string>): (r: Option<real>)
    ensures cell.None? ==> r.None?
  {
    match cell
    case None => None
    case Some(s) =>
      var t := PctText(s);
      match Float(t)
      case Some(v) => Some(v)
      case None => SearchNumber(t, 0)
  }

  /** A present cell has no value exactly when its text neither parses nor holds a digit. */
  lemma {:induction false} ParseChangePctNone(s: string)
    ensures ParseChangePct(Some(s)).None? <==> Float(PctText(s)).None? && !HasDigit(PctText(s))
  {
    SearchNumberFinds(PctText(s), 0);
  }

  /** A signed pt-BR percentage keeps its sign and is not scaled. */
  lemma {:induction false} ParseChangePctSigned(s: string, sign: char, ip: string, fp: string, v: real)
    requires s == [sign] + ip + "," + fp + "%"
    requires sign == '+' || sign == '-'
    requires |ip| > 0 && AllDigits(ip) && AllDigits(fp)
    requires v == (if sign == '-' then -DecimalValue(ip, fp) else DecimalValue(ip, fp))
    ensures ParseChangePct(Some(s)) == Some(v)
  {
    PctTextSigned(s, sign, ip, fp);
    FloatOfSignedDecimal(sign, ip, fp);
    assert Float(PctText(s)) == Some(v);
  }

  /** The rewrites of `_parse_change_pct` turn `±ip,fp%` into `±ip.fp`. */
  lemma {:induction false} PctTextSigned(s: string, sign: char, ip: string, fp: string)
    requires s == [sign] + ip + "," + fp + "%"
    requires sign == '+' || sign == '-'
    requires AllDigits(ip) && AllDigits(fp)
    ensures PctText(s) == [sign] + (ip + "." + fp)
  {
    var a := [sign] + ip + "," + fp;
    assert Strip(s) == s by { assert s[0] == sign && s[|s| - 1] == '%'; }
    SignedNoSpace(s, sign, ip, fp);
    SignedNoPercent(a, sign, ip, fp);
    DropLastPercent(s, a);
    SignedCommaToPoint(a, sign, ip, fp);
  }

  /** Removing the `%` of `a%`, where `a` holds none. */
  lemma {:induction false} DropLastPercent(s: string, a: string)
    requires s == a + "%" && '%' !in a
    ensures RemoveChar(s, '%') == a
  {
    RemoveCharConcat(a, "%", '%');
    assert RemoveChar("%", '%') == [];
  }

  lemma {:induction false} SignedNoSpace(s: string, sign: char, ip: string, fp: string)
    requires s == [sign] + ip + "," + fp + "%"
    requires sign == '+' || sign == '-'
    requires AllDigits(ip) && AllDigits(fp)
    ensures RemoveChar(s, ' ') == s
  {
    forall i | 0 <= i < |s| ensures s[i] != ' ' {
      if 0 < i <= |ip| { assert s[i] == ip[i - 1] && IsDigit(ip[i - 1]); }
      else if |ip| + 1 < i < |s| - 1 { assert s[i] == fp[i - |ip| - 2] && IsDigit(fp[i - |ip| - 2]); }
    }
  }

  lemma {:induction false} SignedNoPercent(a: string, sign: char, ip: string, fp: string)
    requires a == [sign] + ip + "," + fp
    requires sign == '+' || sign == '-'
    requires AllDigits(ip) && AllDigits(fp)
    ensures '%' !in a
  {
    forall i | 0 <= i < |a| ensures a[i] != '%' {
      if 0 < i <= |ip| { assert a[i] == ip[i - 1] && IsDigit(ip[i - 1]); }
      else if |ip| + 1 < i { assert a[i] == fp[i - |ip| - 2] && IsDigit(fp[i - |ip| - 2]); }
    }
  }

  lemma {:induction false} SignedCommaToPoint(a: string, sign: char, ip: string, fp: string)
    requires a == [sign] + ip + "," + fp
    requires sign == '+' || sign == '-'
    requires AllDigits(ip) && AllDigits(fp)
    ensures ReplaceChar(a, ',', '.') == [sign] + (ip + "." + fp)
  {
    var b := [sign] + (ip + "." + fp);
    ReplaceCharAt(a, ',', '.');
    forall i | 0 <= i < |a| ensures ReplaceChar(a, ',', '.')[i] == b[i] {
      if 0 < i <= |ip| { assert a[i] == ip[i - 1] && b[i] == ip[i - 1] && IsDigit(ip[i - 1]); }
      else if |ip| + 1 < i { assert a[i] == fp[i - |ip| - 2] && b[i] == a[i] && IsDigit(a[i]); }
    }
  }

  /** `_parse_change_pct("+1,56%")` is 1.56. */
  lemma {:induction false} ParseChangePctRise()
    ensures ParseChangePct(Some("+1,56%")) == Some(1.56)
  {
    assert ['+'] + "1" + "," + "56" + "%" == "+1,56%";
    ChangeValues();
    ParseChangePctSigned("+1,56%", '+', "1", "56", 1.56);
  }

  /** `_parse_change_pct("-0,32%")` is -0.32. */
  lemma {:induction false} ParseChangePctFall()
    ensures ParseChangePct(Some("-0,32%")) == Some(-0.32)
  {
    assert ['-'] + "0" + "," + "32" + "%" == "-0,32%";
    ChangeValues();
    ParseChangePctSigned("-0,32%", '-', "0", "32", -0.32);
  }

  lemma {:induction false} ChangeValues()
    ensures DecimalValue("1", "56") == 1.56 && DecimalValue("0", "32") == 0.32
  {
    assert "1" + ['5'] == "15" && "15" + ['6'] == "156";
    assert DigitsValue("156") == 156 by { assert "156"[..2] == "15" && "15"[..1] == "1"; }
    assert "0" + ['3'] == "03" && "03" + ['2'] == "032";
    assert DigitsValue("032") == 32 by { assert "032"[..2] == "03" && "03"[..1] == "0"; }
  }

  // ---------------------------------------------------------------- dates

  /**
   * The days a pandas `Timestamp` (nanoseconds since 1970 in 64 bits) can
   * hold at midnight: 1677-09-22 to 2262-04-11.  A date outside them is
   * out of bounds, and `errors="coerce"` turns it into NaT.
   */
  predicate InTimestampRange(d: Date) {
    Le(Date(1677, 9, 22), d) && Le(d, Date(2262, 4, 11))
  }

  /**
   * `pd.to_datetime(cell, dayfirst=True, errors="coerce")` on the two
   * layouts the site uses, `dd.mm.yyyy` and `dd/mm/yyyy`: `None` (NaT) for
   * anything else, an impossible date or one a `Timestamp` cannot hold.
   */
  function ParseDayFirst(cell: Option<string>): (r: Option<Date>)
    ensures r.Some? ==> IsValid(r.value) && InTimestampRange(r.value)
  {
    match cell
    case None => None
    case Some(s) =>
      if |s| == 10 && (s[2] == '.' || s[2] == '/') && s[5] == s[2]
         && AllDigits(s[..2]) && AllDigits(s[3..5]) && AllDigits(s[6..])
      then
        var d := Date(DigitsValue(s[6..]), DigitsValue(s[3..5]), DigitsValue(s[..2]));
        if IsValid(d) && InTimestampRange(d) then Some(d) else None
      else None
  }

  /** How the site prints a date: `dd.mm.yyyy` or `dd/mm/yyyy`. */
  function FormatDayFirst(d: Date, sep: char): (s: string)
    requires IsValid(d)
    ensures |s| == 10
  {
    PadDigits(d.day, 2) + [sep] + PadDigits(d.month, 2) + [sep] + PadDigits(d.year, 4)
  }

  /**
   * Every date the site prints is read back as itself when a `Timestamp`
   * can hold it, and as NaT otherwise.
   */
  lemma {:induction false} ParseDayFirstRoundTrip(d: Date, sep: char)
    requires IsValid(d) && (sep == '.' || sep == '/')
    ensures ParseDayFirst(Some(FormatDayFirst(d, sep))) == if InTimestampRange(d) then Some(d) else None
  {
    assert Pow10(2) == 100 && Pow10(4) == 10000 by {
      assert Pow10(1) == 10;
      assert Pow10(3) == 1000;
    }
    PadDigitsValue(d.day, 2);
    PadDigitsValue(d.month, 2);
    PadDigitsValue(d.year, 4);
    DayFirstFields(PadDigits(d.day, 2), PadDigits(d.month, 2), PadDigits(d.year, 4), sep);
  }

  /** The three fields of `dd<sep>mm<sep>yyyy` sit where `ParseDayFirst` looks for them. */
  lemma {:induction false} DayFirstFields(dd: string, mm: string, yy: string, sep: char)
    requires |dd| == 2 && |mm| == 2 && |yy| == 4
    ensures var s := dd + [sep] + mm + [sep] + yy;
      |s| == 10 && s[2] == sep && s[5] == sep && s[..2] == dd && s[3..5] == mm && s[6..] == yy
  {
  }
}
