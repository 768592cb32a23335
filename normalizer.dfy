/** `preprocess_column` and its application to the PE and RoE % columns. */
module Normalizer {
  import opened Wrappers
  import Numbers
  import opened Frames

  /** One cell of `pd.to_numeric(col.str.replace(',', '').str.strip(), errors='coerce')`.
      The `.str` methods turn a cell that is not text into NaN. */
  function NormalizeCell(c: Cell): (r: Cell)
    ensures !r.Text?
  {
    match c
    case Text(s) =>
      (match Numbers.ToNumeric(Numbers.Clean(s))
       case Some(v) => Num(v)
       case None => Missing)
    case _ => Missing
  }

  /** A cell becomes a number exactly when its cleaned text is a decimal, and
      then it is that decimal's value; otherwise it becomes missing. */
  lemma NormalizeCellMeaning(c: Cell)
    ensures NormalizeCell(c).Num? <==> c.Text? && Numbers.IsDecimal(Numbers.Clean(c.s))
    ensures NormalizeCell(c).Num? ==> Numbers.ParseDecimal(Numbers.Clean(c.s)) == Some(NormalizeCell(c).v)
    ensures !NormalizeCell(c).Num? ==> NormalizeCell(c) == Missing
  {
    if c.Text? {
      var t := Numbers.Clean(c.s);
      Numbers.ToNumericOfClean(c.s);
      assert NormalizeCell(c) == if Numbers.ParseDecimal(t).Some? then Num(Numbers.ParseDecimal(t).value) else Missing;
    }
  }

  /** `row` with its cell in column `j` normalised. */
  function NormalizeRow(row: Row, j: nat): Row {
    if j < |row| then row[j := NormalizeCell(row[j])] else row
  }

  /** `df[col] = preprocess_column(col)`: every cell of column `j` is replaced
      by its normalised value, every other cell and the header stay. */
  function NormalizeColumn(f: Frame, j: nat): (r: Frame)
    ensures r.header == f.header && |r.body| == |f.body|
    ensures forall i :: 0 <= i < |f.body| ==> |r.body[i]| == |f.body[i]|
    ensures forall i, k :: 0 <= i < |f.body| && 0 <= k < |f.body[i]| ==>
              r.body[i][k] == if k == j then NormalizeCell(f.body[i][k]) else f.body[i][k]
  {
    Frame(f.header, seq(|f.body|, i requires 0 <= i < |f.body| => NormalizeRow(f.body[i], j)))
  }

  /** After normalisation a column holds only numbers and missing values, so
      the numeric comparisons of the filter are defined on every row. */
  lemma NormalizeColumnIsNumeric(f: Frame, j: nat)
    requires WellFormed(f) && j < |f.header|
    ensures WellFormed(NormalizeColumn(f, j))
    ensures forall i :: 0 <= i < |f.body| ==> !NormalizeColumn(f, j).body[i][j].Text?
  {
  }

  /** Lines 29-30: the PE and RoE % columns normalised, all else unchanged. */
  function Preprocess(f: Frame, lay: Layout): (r: Frame)
    requires Describes(lay, f.header)
    ensures r.header == f.header && |r.body| == |f.body|
    ensures forall i :: 0 <= i < |f.body| ==> |r.body[i]| == |f.body[i]|
    ensures forall i, k :: 0 <= i < |f.body| && 0 <= k < |f.body[i]| ==>
              r.body[i][k] == if k == lay.pe || k == lay.roe then NormalizeCell(f.body[i][k]) else f.body[i][k]
  {
    DescribesDistinct(lay, f.header);
    NormalizeColumn(NormalizeColumn(f, lay.pe), lay.roe)
  }

  /** Cleaning drops the separator from a number written with one. */
  lemma CleanThousands(high: string, low: string, frac: string)
    requires |high| > 0 && Numbers.AllDigits(high) && Numbers.AllDigits(low) && Numbers.AllDigits(frac)
    ensures Numbers.Clean(high + "," + low + "." + frac) == high + low + "." + frac
  {
    var s := high + "," + low + "." + frac;
    var plain := high + low + "." + frac;
    assert s == high + [','] + (low + "." + frac);
    Numbers.RemoveCommasAround(high, low + "." + frac);
    assert plain == high + (low + "." + frac);
    assert plain[0] == high[0];
    if frac != [] {
      assert plain[|plain| - 1] == frac[|frac| - 1];
    }
    Numbers.TrimNoop(Numbers.IsPyWhitespace, plain);
  }

  /** A cell whose cleaned text is a decimal becomes that decimal's value. */
  lemma NormalizeDecimal(s: string, v: real)
    requires Numbers.ParseDecimal(Numbers.Clean(s)) == Some(v)
    ensures NormalizeCell(Text(s)) == Num(v)
  {
    Numbers.ToNumericOfClean(s);
  }

  /** A number written with a thousands separator is read as the number
      without it. */
  lemma NormalizeThousands(high: string, low: string, frac: string)
    requires |high| > 0 && Numbers.AllDigits(high) && Numbers.AllDigits(low) && Numbers.AllDigits(frac)
    ensures NormalizeCell(Text(high + "," + low + "." + frac)) == Num(Numbers.FixedValue(high + low, frac))
  {
    CleanThousands(high, low, frac);
    ParseJoined(high + low, frac);
    NormalizeDecimal(high + "," + low + "." + frac, Numbers.FixedValue(high + low, frac));
  }

  /** Digits, a point and digits, unsigned, are read as their fixed-point value. */
  lemma ParseJoined(whole: string, frac: string)
    requires |whole| > 0 && Numbers.AllDigits(whole) && Numbers.AllDigits(frac)
    ensures Numbers.ParseDecimal(whole + "." + frac) == Some(Numbers.FixedValue(whole, frac))
  {
    var s := whole + "." + frac;
    assert s[0] == whole[0] && Numbers.Unsigned(s) == s;
    Numbers.ParseUnsignedFixed(whole, frac);
  }

  /** Text without a single digit, such as "n/a", "-" or the empty cell,
      becomes missing, never zero. */
  lemma NormalizeNoDigits(s: string)
    requires forall k :: 0 <= k < |s| ==> !Numbers.IsDigit(s[k])
    ensures NormalizeCell(Text(s)) == Missing
  {
    var t := Numbers.Clean(s);
    forall k | 0 <= k < |t| ensures !Numbers.IsDigit(t[k]) {
      Numbers.CleanFromInput(s, k);
    }
    Numbers.NoDigitNoDecimal(t);
    NormalizeCellMeaning(Text(s));
  }

  /** A whole number written in plain digits is read as its value. */
  lemma NormalizeDigits(d: string)
    requires |d| > 0 && Numbers.AllDigits(d)
    ensures NormalizeCell(Text(d)) == Num(Numbers.DigitsValue(d) as real)
  {
    assert ',' !in d by {
      assert !Numbers.IsDigit(',');
    }
    Numbers.RemoveCommasNone(d);
    assert !Numbers.IsPyWhitespace(d[0]) && !Numbers.IsPyWhitespace(d[|d| - 1]);
    Numbers.TrimNoop(Numbers.IsPyWhitespace, d);
    Numbers.ParseDigits(d);
    NormalizeDecimal(d, Numbers.DigitsValue(d) as real);
  }

  /** A whole number written with a thousands separator (such as "1,234")
      is read as the number without it. */
  lemma NormalizeGrouped(high: string, low: string)
    requires |high| > 0 && Numbers.AllDigits(high) && Numbers.AllDigits(low)
    ensures Numbers.AllDigits(high + low)
    ensures NormalizeCell(Text(high + "," + low)) == Num(Numbers.DigitsValue(high + low) as real)
  {
    var plain := high + low;
    assert Numbers.AllDigits(plain) && plain[0] == high[0];
    assert ',' !in high && ',' !in low by {
      assert !Numbers.IsDigit(',');
    }
    assert high + "," + low == high + [','] + low;
    Numbers.RemoveCommasAround(high, low);
    assert !Numbers.IsPyWhitespace(plain[0]) && !Numbers.IsPyWhitespace(plain[|plain| - 1]);
    Numbers.TrimNoop(Numbers.IsPyWhitespace, plain);
    Numbers.ParseDigits(plain);
    NormalizeDecimal(high + "," + low, Numbers.DigitsValue(plain) as real);
  }

  /** A one-row frame whose PE and RoE % are plain digits: after
      preprocessing they are those numbers. */
  lemma PreprocessDigits(lay: Layout, header: seq<Cell>, row: Row, pe: string, roe: string)
    requires Describes(lay, header) && lay.pe < |row| && lay.roe < |row|
    requires row[lay.pe] == Text(pe) && row[lay.roe] == Text(roe)
    requires |pe| > 0 && Numbers.AllDigits(pe) && |roe| > 0 && Numbers.AllDigits(roe)
    ensures var body := Preprocess(Frame(header, [row]), lay).body;
            && |body| == 1
            && CellAt(body[0], lay.pe) == Num(Numbers.DigitsValue(pe) as real)
            && CellAt(body[0], lay.roe) == Num(Numbers.DigitsValue(roe) as real)
  {
    NormalizeDigits(pe);
    NormalizeDigits(roe);
  }
}
