/** Cell-level text cleaning and numeric coercion: the comma removal and
    `str.strip()` of `preprocess_column`, and `pd.to_numeric(..., errors='coerce')`
    restricted to plain decimal notation. */
module Numbers {
  import opened Wrappers
  import Seqs

  /** Python's `str.isspace()`: the characters `str.strip()` removes. */
  predicate IsPyWhitespace(c: char) {
    var n := c as int;
    (9 <= n <= 13) || (0x1C <= n <= 0x20) || n == 0x85 || n == 0xA0 || n == 0x1680
    || (0x2000 <= n <= 0x200A) || n == 0x2028 || n == 0x2029 || n == 0x202F
    || n == 0x205F || n == 0x3000
  }

  /** ASCII white space, which the pandas number scanner skips around a number. */
  predicate IsAsciiSpace(c: char) {
    c == ' ' || ('\t' <= c <= '\r')
  }

  /** `s` without the leading characters that satisfy `w`. */
  function TrimStart(w: char -> bool, s: string): (r: string)
    ensures |r| <= |s| && r == s[|s| - |r|..]
    ensures forall i :: 0 <= i < |s| - |r| ==> w(s[i])
    ensures r == [] || !w(r[0])
    decreases |s|
  {
    if s != [] && w(s[0]) then TrimStart(w, s[1..]) else s
  }

  /** `s` without the trailing characters that satisfy `w`. */
  function TrimEnd(w: char -> bool, s: string): (r: string)
    ensures |r| <= |s| && r == s[..|r|]
    ensures forall i :: |r| <= i < |s| ==> w(s[i])
    ensures r == [] || !w(r[|r| - 1])
    decreases |s|
  {
    if s != [] && w(s[|s| - 1]) then TrimEnd(w, s[..|s| - 1]) else s
  }

  /** `s` without leading and trailing characters that satisfy `w`. */
  function Trim(w: char -> bool, s: string): (r: string)
    ensures r == [] || (!w(r[0]) && !w(r[|r| - 1]))
    ensures exists i :: 0 <= i <= |s| - |r| && r == s[i..][..|r|]
                        && (forall k :: 0 <= k < i ==> w(s[k]))
                        && (forall k :: i + |r| <= k < |s| ==> w(s[k]))
  {
    var t := TrimStart(w, s);
    var r := TrimEnd(w, t);
    assert r == s[|s| - |t|..][..|r|];
    r
  }

  /** Trimming leaves a string alone whose ends are already kept characters. */
  lemma TrimNoop(w: char -> bool, s: string)
    requires s == [] || (!w(s[0]) && !w(s[|s| - 1]))
    ensures Trim(w, s) == s
  {
  }

  /** Trimming is idempotent. */
  lemma TrimIdempotent(w: char -> bool, s: string)
    ensures Trim(w, Trim(w, s)) == Trim(w, s)
  {
    TrimNoop(w, Trim(w, s));
  }

  predicate NotComma(c: char) {
    c != ','
  }

  /** `s.replace(',', '')`. */
  function RemoveCommas(s: string): (r: string)
    ensures ',' !in r
  {
    Seqs.FilterSound(NotComma, s);
    Seqs.Filter(NotComma, s)
  }

  /** Removing commas keeps every other character, as often as it occurs. */
  lemma RemoveCommasKeepsOthers(s: string, c: char)
    requires c != ','
    ensures multiset(RemoveCommas(s))[c] == multiset(s)[c]
  {
    Seqs.FilterCount(NotComma, s, c);
  }

  /** Removing commas from text around one comma joins the two sides. */
  lemma RemoveCommasAround(a: string, b: string)
    requires ',' !in a && ',' !in b
    ensures RemoveCommas(a + [','] + b) == a + b
  {
    assert Seqs.Filter(NotComma, [',']) == [] by { assert !NotComma(','); }
    Seqs.FilterAppend(NotComma, a, [','] + b);
    Seqs.FilterAppend(NotComma, [','], b);
    Seqs.FilterKeepsAll(NotComma, a);
    Seqs.FilterKeepsAll(NotComma, b);
    assert a + [','] + b == a + ([','] + b);
  }

  /** Comma removal works piece by piece: the kept characters stay in their
      order, however many commas there are ("1,234,567" gives "1234567"). */
  lemma RemoveCommasAppend(a: string, b: string)
    ensures RemoveCommas(a + b) == RemoveCommas(a) + RemoveCommas(b)
  {
    Seqs.FilterAppend(NotComma, a, b);
  }

  /** Text without commas is left as it is. */
  lemma RemoveCommasNone(s: string)
    requires ',' !in s
    ensures RemoveCommas(s) == s
  {
    Seqs.FilterKeepsAll(NotComma, s);
  }

  /** The cleaning of one cell in `preprocess_column`: commas removed, then
      surrounding white space stripped. */
  function Clean(s: string): (r: string)
    ensures ',' !in r
    ensures r == [] || (!IsPyWhitespace(r[0]) && !IsPyWhitespace(r[|r| - 1]))
  {
    Trim(IsPyWhitespace, RemoveCommas(s))
  }

  predicate IsDigit(c: char) {
    '0' <= c <= '9'
  }

  predicate AllDigits(s: string) {
    forall i :: 0 <= i < |s| ==> IsDigit(s[i])
  }

  /** The value of a string of decimal digits. */
  function DigitsValue(s: string): nat
    requires AllDigits(s)
    decreases |s|
  {
    if s == [] then 0
    else 10 * DigitsValue(s[..|s| - 1]) + ((s[|s| - 1] as int) - ('0' as int))
  }

  function Pow10(k: nat): (r: nat)
    ensures r >= 1
  {
    if k == 0 then 1 else 10 * Pow10(k - 1)
  }

  /** The length of the run of digits that starts `s`. */
  function DigitRun(s: string): (n: nat)
    ensures n <= |s| && AllDigits(s[..n])
    ensures n == |s| || !IsDigit(s[n])
    decreases |s|
  {
    if s != [] && IsDigit(s[0]) then
      var n := DigitRun(s[1..]);
      assert s[..n + 1] == [s[0]] + s[1..][..n];
      n + 1
    else 0
  }

  /** `s` without a leading `+` or `-`. */
  function Unsigned(s: string): string {
    if |s| > 0 && (s[0] == '+' || s[0] == '-') then s[1..] else s
  }

  function Signed(negative: bool, x: real): real {
    if negative then -x else x
  }

  /** The accepted notation: an optional sign, then digits with at most one
      decimal point among them, and at least one digit in all. */
  predicate IsDecimal(s: string) {
    var t := Unsigned(s);
    (|t| > 0 && AllDigits(t))
    || (exists p :: 0 <= p < |t| && t[p] == '.' && AllDigits(t[..p]) && AllDigits(t[p + 1..])
                   && |t[..p]| + |t[p + 1..]| > 0)
  }

  /** Every character of the stripped text is a character of the input. */
  lemma TrimFrom(w: char -> bool, s: string, k: nat)
    requires k < |Trim(w, s)|
    ensures Trim(w, s)[k] in s
  {
    var r := Trim(w, s);
    var i :| 0 <= i <= |s| - |r| && r == s[i..][..|r|];
    assert r[k] == s[i + k];
  }

  /** Every character of the cleaned text is a character of the input. */
  lemma CleanFromInput(s: string, k: nat)
    requires k < |Clean(s)|
    ensures Clean(s)[k] in s
  {
    var r := RemoveCommas(s);
    TrimFrom(IsPyWhitespace, r, k);
    Seqs.FilterSound(NotComma, s);
  }

  /** Text without a single digit is no decimal. */
  lemma {:induction false} NoDigitNoDecimal(t: string)
    requires forall k :: 0 <= k < |t| ==> !IsDigit(t[k])
    ensures !IsDecimal(t)
  {
    var u := Unsigned(t);
    assert forall k :: 0 <= k < |u| ==> u[k] == t[k + |t| - |u|];
    if |u| > 0 {
      assert !IsDigit(u[0]);
    }
    forall p | 0 <= p < |u| && u[p] == '.' && |u[..p]| + |u[p + 1..]| > 0
      ensures !(AllDigits(u[..p]) && AllDigits(u[p + 1..]))
    {
      if p > 0 {
        assert u[..p][0] == u[0];
      } else {
        assert u[p + 1..][0] == u[1];
      }
    }
  }

  /** ASCII white space is white space to `str.strip()` too. */
  lemma AsciiSpaceIsWhitespace(c: char)
    ensures IsAsciiSpace(c) ==> IsPyWhitespace(c)
  {
  }

  /** The value of digits `whole`, a point, and digits `frac`. */
  function FixedValue(whole: string, frac: string): real
    requires AllDigits(whole) && AllDigits(frac)
  {
    DigitsValue(whole) as real + (DigitsValue(frac) as real) / (Pow10(|frac|) as real)
  }

  /** Scans an unsigned number: digits, then an optional point and digits;
      `None` unless the whole string is consumed and a digit was seen. */
  function ParseUnsigned(t: string): Option<real> {
    var n := DigitRun(t);
    if n == |t| then
      if n == 0 then None else Some(DigitsValue(t[..n]) as real)
    else if t[n] != '.' then None
    else
      var frac := t[n + 1..];
      if DigitRun(frac) != |frac| || n + |frac| == 0 then None
      else Some(FixedValue(t[..n], frac))
  }

  /** Scans a number the way the pandas scanner does: an optional sign, then
      an unsigned number. */
  function ParseDecimal(s: string): Option<real> {
    match ParseUnsigned(Unsigned(s))
    case None => None
    case Some(x) => Some(Signed(|s| > 0 && s[0] == '-', x))
  }

  /** The parser accepts exactly the strings of the decimal notation. */
  lemma ParseDecimalAccepts(s: string)
    ensures ParseDecimal(s).Some? <==> IsDecimal(s)
  {
    var t := Unsigned(s);
    var n := DigitRun(t);
    if ParseUnsigned(t).Some? {
      if n == |t| {
        assert t[..n] == t;
      } else {
        var frac := t[n + 1..];
        assert frac[..|frac|] == frac;
        assert t[n] == '.' && AllDigits(t[..n]) && AllDigits(t[n + 1..]);
      }
    }
    if IsDecimal(s) {
      if |t| > 0 && AllDigits(t) {
        DigitRunOfDigits(t);
      } else {
        var p :| 0 <= p < |t| && t[p] == '.' && AllDigits(t[..p]) && AllDigits(t[p + 1..])
                 && |t[..p]| + |t[p + 1..]| > 0;
        DigitRunAtStop(t, p);
        DigitRunOfDigits(t[p + 1..]);
      }
    }
  }

  lemma DigitRunOfDigits(s: string)
    requires AllDigits(s)
    ensures DigitRun(s) == |s|
  {
  }

  lemma DigitRunAtStop(s: string, p: nat)
    requires p < |s| && AllDigits(s[..p]) && !IsDigit(s[p])
    ensures DigitRun(s) == p
  {
  }

  /** The value of an unsigned string of digits is that of its digits. */
  lemma ParseDigits(s: string)
    requires |s| > 0 && AllDigits(s)
    ensures ParseDecimal(s) == Some(DigitsValue(s) as real)
  {
    assert IsDigit(s[0]);
    DigitRunOfDigits(s);
    assert s[..|s|] == s;
  }

  /** The value of a whole number, optionally signed, leading zeros
      included: "+12" is 12, "-007" is -7. */
  lemma ParseSignedDigits(sign: string, d: string)
    requires sign == "" || sign == "-" || sign == "+"
    requires |d| > 0 && AllDigits(d)
    ensures ParseDecimal(sign + d) == Some(Signed(sign == "-", DigitsValue(d) as real))
  {
    assert IsDigit(d[0]);
    assert Unsigned(sign + d) == d;
    DigitRunOfDigits(d);
    assert d[..|d|] == d;
  }

  /** The value of `whole.frac`, optionally signed, is the whole part plus the
      fraction scaled by a power of ten. */
  lemma ParseFixedPoint(sign: string, whole: string, frac: string)
    requires sign == "" || sign == "-" || sign == "+"
    requires AllDigits(whole) && AllDigits(frac) && |whole| + |frac| > 0
    ensures ParseDecimal(sign + whole + "." + frac) == Some(Signed(sign == "-", FixedValue(whole, frac)))
  {
    var s := sign + whole + "." + frac;
    assert Unsigned(s) == whole + "." + frac;
    ParseUnsignedFixed(whole, frac);
  }

  /** The unsigned scan of `whole.frac`. */
  lemma ParseUnsignedFixed(whole: string, frac: string)
    requires AllDigits(whole) && AllDigits(frac) && |whole| + |frac| > 0
    ensures ParseUnsigned(whole + "." + frac) == Some(FixedValue(whole, frac))
  {
    var t := whole + "." + frac;
    assert t[..|whole|] == whole && t[|whole|] == '.' && t[|whole| + 1..] == frac;
    DigitRunAtStop(t, |whole|);
    DigitRunOfDigits(frac);
  }

  /** `pd.to_numeric` on one string, with `errors='coerce'`: surrounding ASCII
      white space is skipped, anything that is not a decimal becomes missing. */
  function ToNumeric(s: string): Option<real> {
    ParseDecimal(Trim(IsAsciiSpace, s))
  }

  /** Coercion yields a number exactly when the trimmed text is a decimal. */
  lemma ToNumericAccepts(s: string)
    ensures ToNumeric(s).Some? <==> IsDecimal(Trim(IsAsciiSpace, s))
  {
    ParseDecimalAccepts(Trim(IsAsciiSpace, s));
  }

  /** The coerced value of a cleaned cell: white space inside the cleaned text
      is already gone, so only the decimal notation decides. */
  lemma ToNumericOfClean(s: string)
    ensures ToNumeric(Clean(s)) == ParseDecimal(Clean(s))
    ensures ToNumeric(Clean(s)).Some? <==> IsDecimal(Clean(s))
  {
    var c := Clean(s);
    if c != [] {
      AsciiSpaceIsWhitespace(c[0]);
      AsciiSpaceIsWhitespace(c[|c| - 1]);
    }
    TrimNoop(IsAsciiSpace, c);
    assert Trim(IsAsciiSpace, c) == c;
    ParseDecimalAccepts(c);
  }

  /** The decimal digits of `n`, without leading zeros. */
  function NatDigits(n: nat): (s: string)
    ensures |s| > 0 && AllDigits(s) && s[0] != '+' && s[0] != '-'
    decreases n
  {
    var d := ['0' + ((n % 10) as char)];
    if n < 10 then d else NatDigits(n / 10) + d
  }

  lemma {:induction false} NatDigitsValue(n: nat)
    ensures DigitsValue(NatDigits(n)) == n
    decreases n
  {
    var s := NatDigits(n);
    if n >= 10 {
      NatDigitsValue(n / 10);
      assert s[..|s| - 1] == NatDigits(n / 10);
    }
  }

  /** An integer written in decimal, with a `-` when negative. */
  function FormatInt(z: int): string {
    if z < 0 then "-" + NatDigits(-z) else NatDigits(z)
  }

  /** Coercion reads back every integer written in decimal. */
  lemma ToNumericFormatInt(z: int)
    ensures ToNumeric(FormatInt(z)) == Some(z as real)
  {
    var s := FormatInt(z);
    var digits := NatDigits(if z < 0 then -z else z);
    TrimNoop(IsAsciiSpace, s);
    NatDigitsValue(if z < 0 then -z else z);
    DigitRunOfDigits(digits);
    assert digits[..|digits|] == digits;
    if z < 0 {
      assert Unsigned(s) == digits;
    } else {
      assert Unsigned(s) == digits;
    }
  }
}
