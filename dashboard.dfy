/** One rendering pass of the dashboard script, from the rows read from the
    file to the values its widgets show. */
module Dashboard {
  import opened Wrappers
  import Seqs
  import opened Frames
  import Numbers
  import Normalizer
  import opened Filtering
  import opened Selection
  import opened Trend

  /** What a successful pass shows: the filtered table, the company options,
      the selected record and its return trend. */
  datatype View = View(table: seq<Row>, options: seq<Cell>, record: Row, trend: seq<Point>)

  /** The script from line 14 to line 59: load, normalise PE and RoE %,
      filter, offer and select a company, extract its trend. `company` is
      what the select box returns (`None` when it has no options). */
  function Render(raw: seq<Row>, c: Criteria, company: Option<Cell>): (r: Result<View, Failure>)
    requires SliderValues(c)
    ensures raw == [] ==> r == Err(NoHeaderRow)
    ensures r.Ok? ==> r.value.record in r.value.table && |r.value.trend| == 5
  {
    var f :- PromoteHeader(raw);
    var lay :- ResolveLayout(f.header);
    var df := Normalizer.Preprocess(f, lay);
    var shown := FilterRows(lay, c, df.body);
    var record :- SelectCompany(lay, shown, company);
    Ok(View(shown, CompanyOptions(lay, shown), record, ReturnTrend(lay, record)))
  }

  /** The stages of a pass over a frame whose columns resolve. */
  function Shown(raw: seq<Row>, c: Criteria, lay: Layout): seq<Row>
    requires SliderValues(c) && raw != [] && Describes(lay, raw[0])
  {
    FilterRows(lay, c, Normalizer.Preprocess(Frame(raw[0], raw[1..]), lay).body)
  }

  /** A pass over a frame whose columns resolve shows exactly the normalised
      rows that meet the criteria, and succeeds exactly when the chosen name
      is among them; the record is then the first row carrying it. */
  lemma RenderShows(raw: seq<Row>, c: Criteria, company: Option<Cell>)
    requires SliderValues(c) && raw != [] && ResolveLayout(raw[0]).Ok?
    ensures var lay := ResolveLayout(raw[0]).value;
            var body := Normalizer.Preprocess(Frame(raw[0], raw[1..]), lay).body;
            var r := Render(raw, c, company);
            && (r.Ok? <==> exists i :: 0 <= i < |Shown(raw, c, lay)| && NameEquals(CellAt(Shown(raw, c, lay)[i], lay.name), company))
            && (r.Err? ==> r.error == NoMatchingRecord)
            && (r.Ok? ==> r.value.table == Seqs.Filter(QualifyMask(lay, c), body)
                          && r.value.options == CompanyOptions(lay, r.value.table)
                          && NameEquals(CellAt(r.value.record, lay.name), company)
                          && r.value.trend == ReturnTrend(lay, r.value.record)
                          && exists i :: 0 <= i < |r.value.table| && r.value.record == r.value.table[i]
                                         && forall k :: 0 <= k < i ==> !NameEquals(CellAt(r.value.table[k], lay.name), company))
  {
    var lay := ResolveLayout(raw[0]).value;
    var body := Normalizer.Preprocess(Frame(raw[0], raw[1..]), lay).body;
    FilterRowsExact(lay, c, body);
    SelectFirstMatch(lay, Shown(raw, c, lay), company);
  }

  /** A pass whose columns do not resolve ends with the failure of the first
      label, in the order the script first reads them, that is missing
      (`ColumnNotFound`) or repeated (`DuplicateColumn`). */
  lemma RenderUnresolved(raw: seq<Row>, c: Criteria, company: Option<Cell>)
    requires SliderValues(c) && raw != [] && ResolveLayout(raw[0]).Err?
    ensures Render(raw, c, company) == Err(ResolveLayout(raw[0]).error)
    ensures exists k :: 0 <= k < |RequiredKeys| && !KeyedOnce(raw[0], RequiredKeys[k])
                        && (forall m :: 0 <= m < k ==> KeyedOnce(raw[0], RequiredKeys[m]))
                        && Render(raw, c, company).error == ColumnIndex(raw[0], RequiredKeys[k]).error
  {
    assert ResolveLayout(raw[0]).error == ColumnIndices(raw[0], RequiredKeys).error;
    ColumnIndicesFailure(raw[0], RequiredKeys);
  }

  /** When no row meets the criteria, the pass ends at the selection, which
      is where `.iloc[0]` raises. */
  lemma RenderNothingShown(raw: seq<Row>, c: Criteria, company: Option<Cell>)
    requires SliderValues(c) && raw != [] && ResolveLayout(raw[0]).Ok?
    requires Shown(raw, c, ResolveLayout(raw[0]).value) == []
    ensures Render(raw, c, company) == Err(NoMatchingRecord)
  {
  }

  /** The record shown has PE and RoE % as numbers within the slider
      settings, and the trend has one point per return column. */
  lemma RenderRecord(raw: seq<Row>, c: Criteria, company: Option<Cell>)
    requires SliderValues(c) && Render(raw, c, company).Ok?
    ensures var lay := ResolveLayout(raw[0]).value;
            var v := Render(raw, c, company).value;
            && CellAt(v.record, lay.pe).Num? && c.minPe as real <= CellAt(v.record, lay.pe).v <= c.maxPe as real
            && CellAt(v.record, lay.roe).Num? && CellAt(v.record, lay.roe).v >= c.minRoe as real
            && forall k :: 0 <= k < 5 ==> v.trend[k].year == ReturnKeys[k]
  {
    assert raw != [] && ResolveLayout(raw[0]).Ok?;
    var lay := ResolveLayout(raw[0]).value;
    var shown := Shown(raw, c, lay);
    var record := SelectCompany(lay, shown, company).value;
    assert Render(raw, c, company).value == View(shown, CompanyOptions(lay, shown), record, ReturnTrend(lay, record))
        && record in shown;
    var body := Normalizer.Preprocess(Frame(raw[0], raw[1..]), lay).body;
    assert record in FilterRows(lay, c, body);
    FilterRowsBounds(lay, c, body, record);
  }

  /** With the sliders in their initial positions (lines 22-23: PE in
      [0, 50], RoE % at least 10, no industry selected), a row whose PE and
      RoE % are written in plain digits is shown exactly when its PE is at
      most 50 and its RoE % at least 10. */
  lemma DefaultSettings(lay: Layout, header: seq<Cell>, row: Row, pe: string, roe: string)
    requires Describes(lay, header) && lay.pe < |row| && lay.roe < |row|
    requires row[lay.pe] == Text(pe) && row[lay.roe] == Text(roe)
    requires |pe| > 0 && Numbers.AllDigits(pe) && |roe| > 0 && Numbers.AllDigits(roe)
    ensures var body := Normalizer.Preprocess(Frame(header, [row]), lay).body;
            FilterRows(lay, Defaults, body)
            == if Numbers.DigitsValue(pe) <= 50 && Numbers.DigitsValue(roe) >= 10 then body else []
  {
    var body := Normalizer.Preprocess(Frame(header, [row]), lay).body;
    Normalizer.PreprocessDigits(lay, header, row, pe, roe);
    DefaultsQualify(lay, body[0], Numbers.DigitsValue(pe) as real, Numbers.DigitsValue(roe) as real);
    FilterRowsSingle(lay, Defaults, body[0]);
    assert body == [body[0]];
  }
}
