/** The filter of lines 32-39: a numeric mask on PE and RoE %, then, when
    industries are selected, an `isin` mask on Industry. */
module Filtering {
  import Seqs
  import opened Frames

  /** The sidebar settings: the industry multiselect and the two sliders. */
  datatype Criteria = Criteria(industries: seq<Cell>, minPe: int, maxPe: int, minRoe: int)

  /** What the sliders can produce: whole numbers in [0, 100], the PE range
      ordered. */
  predicate SliderValues(c: Criteria) {
    0 <= c.minPe <= c.maxPe <= 100 && 0 <= c.minRoe <= 100
  }

  /** The sliders' initial positions, with no industry selected. */
  const Defaults: Criteria := Criteria([], 0, 50, 10)

  /** `cell >= bound`; a comparison with a missing value is false. */
  predicate AtLeast(cell: Cell, bound: int) {
    cell.Num? && cell.v >= bound as real
  }

  /** `cell <= bound`; a comparison with a missing value is false. */
  predicate AtMost(cell: Cell, bound: int) {
    cell.Num? && cell.v <= bound as real
  }

  /** The mask of lines 33-35. */
  predicate InRanges(lay: Layout, c: Criteria, row: Row) {
    && AtLeast(CellAt(row, lay.pe), c.minPe)
    && AtMost(CellAt(row, lay.pe), c.maxPe)
    && AtLeast(CellAt(row, lay.roe), c.minRoe)
  }

  /** `Industry.isin(selection)`: membership by value, so a missing industry
      matches a missing entry of the selection. */
  predicate InIndustries(lay: Layout, c: Criteria, row: Row) {
    CellAt(row, lay.industry) in c.industries
  }

  /** The condition a row meets to be shown. */
  predicate Qualifies(lay: Layout, c: Criteria, row: Row) {
    InRanges(lay, c, row) && (|c.industries| == 0 || InIndustries(lay, c, row))
  }

  function RangeMask(lay: Layout, c: Criteria): Row -> bool {
    row => InRanges(lay, c, row)
  }

  function IndustryMask(lay: Layout, c: Criteria): Row -> bool {
    row => InIndustries(lay, c, row)
  }

  function QualifyMask(lay: Layout, c: Criteria): Row -> bool {
    row => Qualifies(lay, c, row)
  }

  /** Lines 32-39: the numeric mask, then the industry mask when the
      selection is not empty. Every row shown meets the whole condition. */
  function FilterRows(lay: Layout, c: Criteria, rows: seq<Row>): (r: seq<Row>)
    requires SliderValues(c)
    ensures forall row :: row in r ==> row in rows && Qualifies(lay, c, row)
  {
    var ranged := Seqs.Filter(RangeMask(lay, c), rows);
    Seqs.FilterSound(RangeMask(lay, c), rows);
    if |c.industries| > 0 then
      Seqs.FilterSound(IndustryMask(lay, c), ranged);
      Seqs.Filter(IndustryMask(lay, c), ranged)
    else ranged
  }

  /** The two masks applied in turn select exactly the rows that meet the
      whole condition, in their original order. */
  lemma FilterRowsExact(lay: Layout, c: Criteria, rows: seq<Row>)
    requires SliderValues(c)
    ensures FilterRows(lay, c, rows) == Seqs.Filter(QualifyMask(lay, c), rows)
  {
    if |c.industries| > 0 {
      var p, q := RangeMask(lay, c), IndustryMask(lay, c);
      Seqs.FilterFuse(p, q, rows);
      Seqs.FilterAgree(x => p(x) && q(x), QualifyMask(lay, c), rows);
    } else {
      Seqs.FilterAgree(RangeMask(lay, c), QualifyMask(lay, c), rows);
    }
  }

  /** Under the initial slider positions a row with numeric PE and RoE %
      qualifies exactly when PE is at most 50 and RoE % at least 10. */
  lemma DefaultsQualify(lay: Layout, row: Row, pe: real, roe: real)
    requires CellAt(row, lay.pe) == Num(pe) && CellAt(row, lay.roe) == Num(roe)
    ensures SliderValues(Defaults)
    ensures Qualifies(lay, Defaults, row) <==> 0.0 <= pe <= 50.0 && roe >= 10.0
  {
  }

  /** A single row is shown exactly when it meets the whole condition. */
  lemma FilterRowsSingle(lay: Layout, c: Criteria, row: Row)
    requires SliderValues(c)
    ensures FilterRows(lay, c, [row]) == if Qualifies(lay, c, row) then [row] else []
  {
    FilterRowsExact(lay, c, [row]);
    assert [row][1..] == [];
  }

  /** Every row shown has a PE within the slider range, bounds included, and
      an RoE % at least the minimum; a row missing either value is never shown. */
  lemma FilterRowsBounds(lay: Layout, c: Criteria, rows: seq<Row>, row: Row)
    requires SliderValues(c) && row in FilterRows(lay, c, rows)
    ensures CellAt(row, lay.pe).Num? && c.minPe as real <= CellAt(row, lay.pe).v <= c.maxPe as real
    ensures CellAt(row, lay.roe).Num? && CellAt(row, lay.roe).v >= c.minRoe as real
    ensures |c.industries| > 0 ==> CellAt(row, lay.industry) in c.industries
  {
  }

  /** No row that meets the condition is dropped. */
  lemma FilterRowsComplete(lay: Layout, c: Criteria, rows: seq<Row>, i: nat)
    requires SliderValues(c) && i < |rows| && Qualifies(lay, c, rows[i])
    ensures rows[i] in FilterRows(lay, c, rows)
  {
    FilterRowsExact(lay, c, rows);
    Seqs.FilterComplete(QualifyMask(lay, c), rows, i);
  }

  /** The filter keeps the table's order: filtering two consecutive parts of a
      table gives the two filtered parts, one after the other. */
  lemma FilterRowsOrder(lay: Layout, c: Criteria, front: seq<Row>, back: seq<Row>)
    requires SliderValues(c)
    ensures FilterRows(lay, c, front + back) == FilterRows(lay, c, front) + FilterRows(lay, c, back)
  {
    FilterRowsExact(lay, c, front + back);
    FilterRowsExact(lay, c, front);
    FilterRowsExact(lay, c, back);
    Seqs.FilterAppend(QualifyMask(lay, c), front, back);
  }

  /** A row that meets the condition is kept as often as it occurs; any other
      row is not kept at all. */
  lemma FilterRowsCount(lay: Layout, c: Criteria, rows: seq<Row>, row: Row)
    requires SliderValues(c)
    ensures multiset(FilterRows(lay, c, rows))[row] == if Qualifies(lay, c, row) then multiset(rows)[row] else 0
  {
    FilterRowsExact(lay, c, rows);
    Seqs.FilterCount(QualifyMask(lay, c), rows, row);
  }

  /** An empty industry selection restricts nothing beyond the sliders. */
  lemma NoIndustrySelected(lay: Layout, c: Criteria, rows: seq<Row>)
    requires SliderValues(c) && c.industries == []
    ensures FilterRows(lay, c, rows) == Seqs.Filter(RangeMask(lay, c), rows)
  {
  }

  /** Selecting only industries that no row has gives an empty table, not an
      error. */
  lemma AbsentIndustries(lay: Layout, c: Criteria, rows: seq<Row>)
    requires SliderValues(c) && |c.industries| > 0
    requires forall i :: 0 <= i < |rows| ==> CellAt(rows[i], lay.industry) !in c.industries
    ensures FilterRows(lay, c, rows) == []
  {
    FilterRowsExact(lay, c, rows);
    Seqs.FilterEmpty(QualifyMask(lay, c), rows);
  }

  /** When every row has both values inside the slider ranges and no industry
      is selected, the filter shows the whole table. */
  lemma FilterKeepsAllInRange(lay: Layout, c: Criteria, rows: seq<Row>)
    requires SliderValues(c) && c.industries == []
    requires forall i :: 0 <= i < |rows| ==> InRanges(lay, c, rows[i])
    ensures FilterRows(lay, c, rows) == rows
  {
    Seqs.FilterKeepsAll(RangeMask(lay, c), rows);
  }

  /** Even with the widest settings, a row whose PE or RoE % is missing is
      dropped: the filter is never the identity on a table with such a row. */
  lemma WidestFilterDropsMissing(lay: Layout, rows: seq<Row>, i: nat)
    requires i < |rows| && (!CellAt(rows[i], lay.pe).Num? || !CellAt(rows[i], lay.roe).Num?)
    ensures rows[i] !in FilterRows(lay, Criteria([], 0, 100, 0), rows)
    ensures FilterRows(lay, Criteria([], 0, 100, 0), rows) != rows
  {
    assert rows[i] in rows && !Qualifies(lay, Criteria([], 0, 100, 0), rows[i]);
  }
}
