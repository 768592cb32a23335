/** The return trend of lines 58-59: the five yearly return columns of the
    selected record, each coerced to a number on its own. */
module Trend {
  import opened Wrappers
  import Numbers
  import opened Frames
  import Normalizer

  /** One point of the chart: the column it comes from and its value, if any. */
  datatype Point = Point(year: string, value: Option<real>)

  /** `pd.to_numeric(value, errors='coerce')` on one cell of the record: text
      is coerced as it is (no comma removal here), a number stays, a missing
      value stays missing. */
  function CellToNumber(c: Cell): Option<real> {
    match c
    case Text(s) => Numbers.ToNumeric(s)
    case Num(v) => Some(v)
    case Missing => None
  }

  /** Line 59: one point per return column, in the order of `ReturnKeys`. */
  function ReturnTrend(lay: Layout, record: Row): (points: seq<Point>)
    requires |lay.yearly| == |ReturnKeys|
    ensures |points| == 5
    ensures forall k :: 0 <= k < 5 ==> points[k].year == ReturnKeys[k]
  {
    seq(5, k requires 0 <= k < 5 => Point(ReturnKeys[k], CellToNumber(CellAt(record, lay.yearly[k]))))
  }

  /** Each point depends only on its own column: replacing one cell of the
      record changes at most the points read from that column, and the
      sequence keeps its five entries. */
  lemma ReturnTrendPointwise(lay: Layout, record: Row, j: nat, c: Cell)
    requires |lay.yearly| == |ReturnKeys| && j < |record|
    ensures |ReturnTrend(lay, record[j := c])| == 5
    ensures forall k :: 0 <= k < 5 && lay.yearly[k] != j ==>
              ReturnTrend(lay, record[j := c])[k] == ReturnTrend(lay, record)[k]
    ensures forall k :: 0 <= k < 5 && lay.yearly[k] == j ==>
              ReturnTrend(lay, record[j := c])[k].value == CellToNumber(c)
  {
  }

  /** A cell that is no number gives a missing point at its own place; it is
      neither dropped nor read as zero. */
  lemma ReturnTrendMalformed(lay: Layout, record: Row, k: nat, s: string)
    requires |lay.yearly| == |ReturnKeys| && k < 5
    requires CellAt(record, lay.yearly[k]) == Text(s) && !Numbers.IsDecimal(Numbers.Trim(Numbers.IsAsciiSpace, s))
    ensures |ReturnTrend(lay, record)| == 5
    ensures ReturnTrend(lay, record)[k] == Point(ReturnKeys[k], None)
  {
    Numbers.ToNumericAccepts(s);
  }

  /** Text containing a comma is never a decimal. */
  lemma CommaIsNoDecimal(t: string, i: nat)
    requires i < |t| && t[i] == ','
    ensures !Numbers.IsDecimal(t)
  {
    var u := Numbers.Unsigned(t);
    var j := if |u| == |t| then i else i - 1;
    assert u[j] == ',';
    assert !Numbers.IsDigit(u[j]);
    forall p | 0 <= p < |u| && u[p] == '.'
      ensures !(Numbers.AllDigits(u[..p]) && Numbers.AllDigits(u[p + 1..]))
    {
      if p < j {
        assert u[p + 1..][j - p - 1] == ',';
      } else {
        assert u[..p][j] == ',';
      }
    }
  }

  /** Unlike the PE and RoE % columns, the return columns are coerced without
      removing thousands separators: "1,234" is read as 1234 there but gives
      a missing point here. */
  lemma ReturnsKeepSeparators(high: string, low: string)
    requires |high| > 0 && Numbers.AllDigits(high) && Numbers.AllDigits(low)
    ensures CellToNumber(Text(high + "," + low)) == None
    ensures Numbers.AllDigits(high + low)
    ensures Normalizer.NormalizeCell(Text(high + "," + low)) == Num(Numbers.DigitsValue(high + low) as real)
  {
    var s := high + "," + low;
    assert s[|high|] == ',';
    assert !Numbers.IsAsciiSpace(s[0]) && !Numbers.IsAsciiSpace(s[|s| - 1]) by {
      assert s[0] == high[0];
      if low != [] { assert s[|s| - 1] == low[|low| - 1]; } else { assert s[|s| - 1] == ','; }
    }
    Numbers.TrimNoop(Numbers.IsAsciiSpace, s);
    CommaIsNoDecimal(s, |high|);
    Numbers.ToNumericAccepts(s);
    Normalizer.NormalizeGrouped(high, low);
  }
}
