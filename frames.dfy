/** The data frame the dashboard works on: header promotion in `load_data`
    and the lookup of columns by their label. */
module Frames {
  import opened Wrappers
  import Seqs

  /** One cell: text as read from the file, a number produced by coercion,
      or missing (pandas NaN). */
  datatype Cell = Text(s: string) | Num(v: real) | Missing

  type Row = seq<Cell>

  /** Column labels and the data rows, positionally. */
  datatype Frame = Frame(header: seq<Cell>, body: seq<Row>)

  /** The ways a rendering pass ends with an exception. */
  datatype Failure =
    | NoHeaderRow               // `df.iloc[0]` on a frame without rows
    | ColumnNotFound(key: string)
    | DuplicateColumn(key: string)
    | NoMatchingRecord          // `.iloc[0]` on an empty selection

  predicate Rectangular(width: nat, rows: seq<Row>) {
    forall i :: 0 <= i < |rows| ==> |rows[i]| == width
  }

  predicate WellFormed(f: Frame) {
    Rectangular(|f.header|, f.body)
  }

  /** The cell of `row` in column `j`; rows of a well-formed frame always have it. */
  function CellAt(row: Row, j: nat): Cell {
    if j < |row| then row[j] else Missing
  }

  /** `load_data` after `read_csv`: the first data row becomes the column
      labels and the remaining rows, renumbered from 0, are the body. */
  function PromoteHeader(raw: seq<Row>): (r: Result<Frame, Failure>)
    ensures r.Err? <==> raw == []
    ensures r.Err? ==> r.error == NoHeaderRow
    ensures r.Ok? ==> r.value.header == raw[0] && |r.value.body| == |raw| - 1
    ensures r.Ok? ==> forall i :: 0 <= i < |r.value.body| ==> r.value.body[i] == raw[i + 1]
    ensures r.Ok? && Rectangular(|raw[0]|, raw) ==> WellFormed(r.value)
  {
    if raw == [] then Err(NoHeaderRow) else Ok(Frame(raw[0], raw[1..]))
  }

  /** The rows a frame was promoted from: its header followed by its body. */
  function Unpromote(f: Frame): (raw: seq<Row>)
    ensures |raw| == |f.body| + 1 && raw[0] == f.header
  {
    [f.header] + f.body
  }

  /** Promotion loses nothing: putting the header back gives the input rows. */
  lemma PromoteHeaderRoundTrip(raw: seq<Row>)
    requires raw != []
    ensures PromoteHeader(raw).Ok? && Unpromote(PromoteHeader(raw).value) == raw
  {
    assert [raw[0]] + raw[1..] == raw;
  }

  /** `key` labels exactly one column. */
  predicate KeyedOnce(header: seq<Cell>, key: string) {
    exists j :: 0 <= j < |header| && header[j] == Text(key)
                && forall k :: 0 <= k < |header| && k != j ==> header[k] != Text(key)
  }

  /** `df[key]`: the position of the column named `key`. A key that is
      absent raises `KeyError`; a key that occurs twice selects a frame
      rather than a column, on which the dashboard's column operations fail. */
  function ColumnIndex(header: seq<Cell>, key: string): (r: Result<nat, Failure>)
    ensures r.Ok? <==> KeyedOnce(header, key)
    ensures r.Ok? ==> r.value < |header| && header[r.value] == Text(key)
    ensures r.Err? ==> r.error == (if Text(key) in header then DuplicateColumn(key) else ColumnNotFound(key))
  {
    var x := Text(key);
    if x !in header then Err(ColumnNotFound(key))
    else
      var k := Seqs.FirstIndex(header, x);
      if x in header[k + 1..] then
        var j := k + 1 + Seqs.FirstIndex(header[k + 1..], x);
        assert header[j] == x && j != k;
        Err(DuplicateColumn(key))
      else
        assert forall m :: 0 <= m < |header| && m != k ==> header[m] != x by {
          forall m | 0 <= m < |header| && m != k ensures header[m] != x {
            if m < k { assert header[..k][m] == header[m]; }
            else { assert header[k + 1..][m - k - 1] == header[m]; }
          }
        }
        Ok(k)
  }

  /** The positions of `keys`, in order, or the first key that fails. */
  function ColumnIndices(header: seq<Cell>, keys: seq<string>): (r: Result<seq<nat>, Failure>)
    ensures r.Ok? <==> forall k :: 0 <= k < |keys| ==> KeyedOnce(header, keys[k])
    ensures r.Ok? ==> |r.value| == |keys|
                      && forall k :: 0 <= k < |keys| ==> r.value[k] < |header| && header[r.value[k]] == Text(keys[k])
    decreases |keys|
  {
    if keys == [] then Ok([])
    else
      var j :- ColumnIndex(header, keys[0]);
      var rest :- ColumnIndices(header, keys[1..]);
      assert forall k :: 1 <= k < |keys| ==> keys[k] == keys[1..][k - 1];
      Ok([j] + rest)
  }

  /** A failing lookup of several keys fails with the error of the first key
      that is not labelled exactly once. */
  lemma {:induction false} ColumnIndicesFailure(header: seq<Cell>, keys: seq<string>)
    requires ColumnIndices(header, keys).Err?
    ensures exists k :: 0 <= k < |keys| && !KeyedOnce(header, keys[k])
                        && (forall m :: 0 <= m < k ==> KeyedOnce(header, keys[m]))
                        && ColumnIndices(header, keys).error == ColumnIndex(header, keys[k]).error
    decreases |keys|
  {
    if ColumnIndex(header, keys[0]).Ok? {
      ColumnIndicesFailure(header, keys[1..]);
      var k :| 0 <= k < |keys[1..]| && !KeyedOnce(header, keys[1..][k])
               && (forall m :: 0 <= m < k ==> KeyedOnce(header, keys[1..][m]))
               && ColumnIndices(header, keys[1..]).error == ColumnIndex(header, keys[1..][k]).error;
      assert keys[1..][k] == keys[k + 1];
      assert forall m :: 0 <= m < k + 1 ==> KeyedOnce(header, keys[m]) by {
        forall m | 0 <= m < k + 1 ensures KeyedOnce(header, keys[m]) {
          if m > 0 { assert keys[m] == keys[1..][m - 1]; }
        }
      }
    }
  }

  /** The five return columns read for the trend chart, in chart order. */
  const ReturnKeys: seq<string> :=
    ["Return over 1year", "Return over 3years", "Return over 5years", "Return over 7years", "Return over 10years"]

  /** Every column label the dashboard reads, in the order the script first reads it. */
  const RequiredKeys: seq<string> := ["Industry", "PE", "RoE %", "Name", "Current Price"] + ReturnKeys

  /** Where each column the dashboard reads sits in the header. */
  datatype Layout = Layout(industry: nat, pe: nat, roe: nat, name: nat, price: nat, yearly: seq<nat>)

  /** Each field of `lay` points at the column of its label. */
  predicate Describes(lay: Layout, header: seq<Cell>) {
    && lay.industry < |header| && header[lay.industry] == Text("Industry")
    && lay.pe < |header| && header[lay.pe] == Text("PE")
    && lay.roe < |header| && header[lay.roe] == Text("RoE %")
    && lay.name < |header| && header[lay.name] == Text("Name")
    && lay.price < |header| && header[lay.price] == Text("Current Price")
    && |lay.yearly| == |ReturnKeys|
    && forall k :: 0 <= k < |ReturnKeys| ==> lay.yearly[k] < |header| && header[lay.yearly[k]] == Text(ReturnKeys[k])
  }

  /** Resolves every column the dashboard reads; fails as the script does when
      one of them is absent or ambiguous. */
  function ResolveLayout(header: seq<Cell>): (r: Result<Layout, Failure>)
    ensures r.Ok? <==> forall k :: 0 <= k < |RequiredKeys| ==> KeyedOnce(header, RequiredKeys[k])
    ensures r.Ok? ==> Describes(r.value, header)
  {
    var ix :- ColumnIndices(header, RequiredKeys);
    var lay := Layout(ix[0], ix[1], ix[2], ix[3], ix[4], ix[5..]);
    assert forall k :: 0 <= k < |ReturnKeys| ==> ReturnKeys[k] == RequiredKeys[k + 5];
    Ok(lay)
  }

  /** The columns of a resolved layout are pairwise different: their labels
      are. */
  lemma DescribesDistinct(lay: Layout, header: seq<Cell>)
    requires Describes(lay, header)
    ensures lay.pe != lay.roe && lay.pe != lay.industry && lay.roe != lay.industry
    ensures lay.name != lay.pe && lay.name != lay.roe && lay.name != lay.industry
    ensures lay.price != lay.industry && lay.price != lay.pe && lay.price != lay.roe && lay.price != lay.name
    ensures forall k :: 0 <= k < |lay.yearly| ==>
              && lay.yearly[k] != lay.pe && lay.yearly[k] != lay.roe
              && lay.yearly[k] != lay.industry && lay.yearly[k] != lay.name && lay.yearly[k] != lay.price
    ensures forall k, m :: 0 <= k < m < |lay.yearly| ==> lay.yearly[k] != lay.yearly[m]
  {
    forall k | 0 <= k < |lay.yearly|
      ensures && lay.yearly[k] != lay.pe && lay.yearly[k] != lay.roe
              && lay.yearly[k] != lay.industry && lay.yearly[k] != lay.name && lay.yearly[k] != lay.price
    {
      assert header[lay.yearly[k]] == Text(ReturnKeys[k]);
    }
    forall k, m | 0 <= k < m < |lay.yearly| ensures lay.yearly[k] != lay.yearly[m] {
      assert header[lay.yearly[k]] == Text(ReturnKeys[k]) && header[lay.yearly[m]] == Text(ReturnKeys[m]);
    }
  }
}
