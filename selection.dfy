/** The company selector of lines 47-49: the distinct names of the filtered
    table as options, and the first row carrying the chosen name. */
module Selection {
  import opened Wrappers
  import Seqs
  import opened Frames

  /** `filtered_df["Name"]`. */
  function NameColumn(lay: Layout, rows: seq<Row>): (names: seq<Cell>)
    ensures |names| == |rows|
  {
    seq(|rows|, i requires 0 <= i < |rows| => CellAt(rows[i], lay.name))
  }

  /** `filtered_df["Name"].unique()`: the options of the select box. */
  function CompanyOptions(lay: Layout, rows: seq<Row>): (options: seq<Cell>)
    ensures Seqs.Distinct(options)
  {
    Seqs.Unique(NameColumn(lay, rows))
  }

  /** Every option is the name of a shown row, every shown row's name is an
      option, and the options follow the order in which names first appear. */
  lemma CompanyOptionsAreNames(lay: Layout, rows: seq<Row>)
    ensures forall k :: 0 <= k < |CompanyOptions(lay, rows)| ==>
              exists i :: 0 <= i < |rows| && CellAt(rows[i], lay.name) == CompanyOptions(lay, rows)[k]
    ensures forall i :: 0 <= i < |rows| ==> CellAt(rows[i], lay.name) in CompanyOptions(lay, rows)
    ensures |CompanyOptions(lay, rows)| <= |rows|
  {
    var names := NameColumn(lay, rows);
    var options := CompanyOptions(lay, rows);
    forall k | 0 <= k < |options|
      ensures exists i :: 0 <= i < |rows| && CellAt(rows[i], lay.name) == options[k]
    {
      var i := Seqs.FirstIndex(names, options[k]);
      assert CellAt(rows[i], lay.name) == names[i];
    }
    forall i | 0 <= i < |rows| ensures CellAt(rows[i], lay.name) in options {
      assert names[i] == CellAt(rows[i], lay.name);
    }
    DistinctNoLonger(options, names);
  }

  /** A duplicate-free sequence drawn from `s` is no longer than `s`. */
  lemma DistinctNoLonger(u: seq<Cell>, s: seq<Cell>)
    requires Seqs.Distinct(u) && forall k :: 0 <= k < |u| ==> u[k] in s
    ensures |u| <= |s|
  {
    var us := set k | 0 <= k < |u| :: u[k];
    var ss := set k | 0 <= k < |s| :: s[k];
    assert us <= ss;
    DistinctCard(u);
    SeqSetCard(s);
    assert |us| <= |ss| by { SubsetCard(us, ss); }
  }

  lemma DistinctCard(u: seq<Cell>)
    requires Seqs.Distinct(u)
    ensures |set k | 0 <= k < |u| :: u[k]| == |u|
  {
    if u != [] {
      var init := u[..|u| - 1];
      DistinctCard(init);
      var a := set k | 0 <= k < |init| :: init[k];
      var b := set k | 0 <= k < |u| :: u[k];
      assert b == a + {u[|u| - 1]};
      assert u[|u| - 1] !in a;
    }
  }

  lemma SeqSetCard(s: seq<Cell>)
    ensures |set k | 0 <= k < |s| :: s[k]| <= |s|
  {
    if s != [] {
      var init := s[..|s| - 1];
      SeqSetCard(init);
      var a := set k | 0 <= k < |init| :: init[k];
      var b := set k | 0 <= k < |s| :: s[k];
      assert b == a + {s[|s| - 1]};
    }
  }

  lemma SubsetCard(a: set<Cell>, b: set<Cell>)
    requires a <= b
    ensures |a| <= |b|
  {
    assert b == a + (b - a);
  }

  /** The options come in the order in which their names first appear among
      the shown rows. */
  lemma CompanyOptionsOrder(lay: Layout, rows: seq<Row>, k: nat, m: nat)
    requires k < m < |CompanyOptions(lay, rows)|
    ensures Seqs.FirstIndex(NameColumn(lay, rows), CompanyOptions(lay, rows)[k])
          < Seqs.FirstIndex(NameColumn(lay, rows), CompanyOptions(lay, rows)[m])
  {
    Seqs.UniqueFirstOccurrenceOrder(NameColumn(lay, rows), k, m);
  }

  /** `filtered_df["Name"] == company`, cell by cell: a missing name equals
      nothing, and no name equals the select box's `None`. */
  predicate NameEquals(name: Cell, company: Option<Cell>) {
    company.Some? && !name.Missing? && name == company.value
  }

  function NameMask(lay: Layout, company: Option<Cell>): Row -> bool {
    row => NameEquals(CellAt(row, lay.name), company)
  }

  /** Line 49: the first row whose name equals the chosen company; `.iloc[0]`
      on no such row raises. */
  function SelectCompany(lay: Layout, rows: seq<Row>, company: Option<Cell>): (r: Result<Row, Failure>)
    ensures r.Err? ==> r.error == NoMatchingRecord
    ensures r.Ok? ==> r.value in rows && NameEquals(CellAt(r.value, lay.name), company)
  {
    var hits := Seqs.Filter(NameMask(lay, company), rows);
    if hits == [] then Err(NoMatchingRecord)
    else
      Seqs.FilterSound(NameMask(lay, company), rows);
      assert hits[0] in hits;
      Ok(hits[0])
  }

  /** The selection succeeds exactly when some row carries the name, and then
      it is the first such row. */
  lemma SelectFirstMatch(lay: Layout, rows: seq<Row>, company: Option<Cell>)
    ensures SelectCompany(lay, rows, company).Ok? <==>
              exists i :: 0 <= i < |rows| && NameEquals(CellAt(rows[i], lay.name), company)
    ensures SelectCompany(lay, rows, company).Ok? ==>
              exists i :: 0 <= i < |rows| && SelectCompany(lay, rows, company).value == rows[i]
                          && NameEquals(CellAt(rows[i], lay.name), company)
                          && forall k :: 0 <= k < i ==> !NameEquals(CellAt(rows[k], lay.name), company)
  {
    var p := NameMask(lay, company);
    Seqs.FilterEmpty(p, rows);
    if Seqs.Filter(p, rows) != [] {
      Seqs.FilterHead(p, rows);
    }
  }

  /** On an empty table there is nothing to select, whatever the choice. */
  lemma SelectFromEmpty(lay: Layout, company: Option<Cell>)
    ensures SelectCompany(lay, [], company) == Err(NoMatchingRecord)
  {
  }

  /** Choosing one of the offered names that is not missing always finds a
      row carrying that name. */
  lemma SelectOffered(lay: Layout, rows: seq<Row>, choice: Cell)
    requires choice in CompanyOptions(lay, rows) && !choice.Missing?
    ensures SelectCompany(lay, rows, Some(choice)).Ok?
    ensures CellAt(SelectCompany(lay, rows, Some(choice)).value, lay.name) == choice
  {
    var names := NameColumn(lay, rows);
    var i := Seqs.FirstIndex(names, choice);
    assert NameEquals(CellAt(rows[i], lay.name), Some(choice));
    SelectFirstMatch(lay, rows, Some(choice));
  }

  /** A missing name is offered like any other but never matches, because a
      missing value equals nothing: choosing it ends the pass. */
  lemma SelectMissingName(lay: Layout, rows: seq<Row>)
    ensures SelectCompany(lay, rows, Some(Missing)) == Err(NoMatchingRecord)
    ensures SelectCompany(lay, rows, None) == Err(NoMatchingRecord)
  {
    SelectFirstMatch(lay, rows, Some(Missing));
    SelectFirstMatch(lay, rows, None);
  }
}
