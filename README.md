# Stock watchlist dashboard: a Dafny model of its data pipeline

The dashboard (`dashboard.py`) is a Streamlit script over a watchlist of
companies. Without its widgets and its chart, one rendering pass is a small,
deterministic pipeline over a table of text cells:

1. **Header promotion** (`load_data`): the first data row becomes the column
   labels, the remaining rows, renumbered from 0, are the body.
2. **Column normalisation** (`preprocess_column`): in the `PE` and `RoE %`
   columns every cell loses its commas and its surrounding white space and is
   coerced to a number; a cell that is no number becomes missing (NaN).
3. **Filter**: rows whose PE lies in the slider range and whose RoE % reaches
   the slider minimum, then, when industries are selected, only rows of those
   industries.
4. **Selection**: the distinct names of the shown rows are the select box's
   options; the record is the first shown row with the chosen name.
5. **Trend**: the five `Return over …` columns of that record, each coerced to
   a number on its own, in fixed order.

## Layout

| file | module | what it holds |
|---|---|---|
| `wrappers.dfy` | `Wrappers` | `Option`, and `Result` usable with `:-` |
| `seqs.dfy` | `Seqs` | order-preserving `Filter` (boolean masks), `Unique` (`Series.unique()`), `FirstIndex`, with their lemmas |
| `numbers.dfy` | `Numbers` | Python's `str.strip()` white space, comma removal, the decimal notation and its parser (`pd.to_numeric` with `errors='coerce'`) |
| `frames.dfy` | `Frames` | cells, frames, header promotion, column lookup by label, the resolved column layout |
| `normalizer.dfy` | `Normalizer` | `preprocess_column` on one cell, one column, and on PE and RoE % |
| `filtering.dfy` | `Filtering` | the slider and industry filter |
| `selection.dfy` | `Selection` | company options and the selected record |
| `trend.dfy` | `Trend` | the five-point return trend |
| `dashboard.dfy` | `Dashboard` | one whole pass, from rows to the values shown |

Modelling choices:

- A cell is `Text(s)`, `Num(v)` (a real) or `Missing` (pandas NaN). A frame
  is its header (a sequence of cells) and its body (rows, positionally).
- A column is found by its label as `df[label]` finds it: an absent label
  raises `KeyError` (`ColumnNotFound`); a label that occurs twice selects a
  frame instead of a column, on which the script's `.str`/`.unique` calls fail
  (`DuplicateColumn`).
- Comparisons with a missing value are false, as pandas' are with NaN;
  `isin` matches a missing industry with a missing selection entry, while the
  `==` of line 49 never matches a missing name.
- The sliders and the select box are inputs: the slider values are whole
  numbers in [0, 100] with the PE range ordered (a precondition), the select
  box's value is an `Option<Cell>` (`None` when it has no options).

Consequences of the code worth stating:

- Even with the widest slider settings the filter is not the identity: a row
  whose PE or RoE % is missing is dropped (`Filtering.WidestFilterDropsMissing`);
  `Filtering.FilterKeepsAllInRange` gives the identity that does hold.
- `.iloc[0]` on an empty selection raises and ends the pass
  (`NoMatchingRecord`).
- No schema is validated at load; a missing column surfaces when it is read.

## Model

| member | source | states |
|---|---|---|
| Frames.PromoteHeader | dashboard.py:10-11 | the first row becomes the labels, the body is one row shorter with `body[i] == raw[i+1]`; no row gives `NoHeaderRow`; a rectangular input gives a well-formed frame |
| Frames.PromoteHeaderRoundTrip | dashboard.py:10-11 | putting the labels back in front of the body gives the input rows again |
| Frames.ColumnIndex | dashboard.py:27 | succeeds exactly when the label names one column, and then points at it; otherwise `ColumnNotFound` when absent, `DuplicateColumn` when repeated |
| Frames.ColumnIndices | dashboard.py:58-59 | succeeds exactly when every label names one column, giving their positions in order |
| Frames.ColumnIndicesFailure | dashboard.py:21-59 | a failing lookup of several labels fails with the error of the first label that is missing or repeated |
| Frames.ReturnKeys | dashboard.py:58 | the five return column labels in chart order, the first singular ("Return over 1year") |
| Frames.RequiredKeys | dashboard.py:21-59 | every label the script reads, in the order it first reads them: Industry, PE, RoE %, Name, Current Price, then the return columns |
| Frames.ResolveLayout | dashboard.py:21-59 | succeeds exactly when every column the script reads is labelled once, and then each field points at its column |
| Frames.DescribesDistinct | dashboard.py:21-59 | the Industry, PE, RoE %, Name, Current Price and five return columns of a resolved layout are pairwise different columns |
| Numbers.TrimStart | dashboard.py:27 | removes exactly the leading white space: what is dropped is white space, what is kept does not start with it |
| Numbers.TrimEnd | dashboard.py:27 | removes exactly the trailing white space |
| Numbers.IsPyWhitespace | dashboard.py:27 | the characters `str.strip()` removes: those `str.isspace()` accepts, the ASCII controls 9-13 and 28-32 and the Unicode spaces and separators |
| Numbers.Trim | dashboard.py:27 | the result is a contiguous part of the input with only white space around it, and neither starts nor ends with white space |
| Numbers.TrimNoop | dashboard.py:27 | text without white space at its ends is left unchanged |
| Numbers.TrimIdempotent | dashboard.py:27 | stripping twice is stripping once |
| Numbers.RemoveCommas | dashboard.py:27 | the result contains no comma |
| Numbers.RemoveCommasKeepsOthers | dashboard.py:27 | every other character is kept as often as it occurs |
| Numbers.RemoveCommasAround | dashboard.py:27 | removing the comma between two comma-free parts joins them |
| Numbers.RemoveCommasAppend | dashboard.py:27 | comma removal works piece by piece, so the kept characters stay in order however many commas there are |
| Numbers.RemoveCommasNone | dashboard.py:27 | text without commas is unchanged |
| Numbers.Clean | dashboard.py:27 | the cleaned cell has no comma and no leading or trailing white space |
| Numbers.DigitRun | dashboard.py:27 | the length of the maximal run of digits at the start |
| Numbers.IsDecimal | dashboard.py:27 | the accepted notation: an optional sign, then digits with at most one point among them and at least one digit |
| Numbers.IsAsciiSpace | dashboard.py:59 | the ASCII blanks (space, tab, line feed, vertical tab, form feed, carriage return) the number scanner skips around a number |
| Numbers.ParseDecimal | dashboard.py:27 | the number scanner: an optional sign, then digits with at most one point and at least one digit, all of the text consumed; the sign `-` negates |
| Numbers.ParseDecimalAccepts | dashboard.py:27 | the parser yields a number exactly for strings of the decimal notation (optional sign, digits, at most one point, at least one digit) |
| Numbers.ParseDigits | dashboard.py:27 | a string of digits is read as its value |
| Numbers.ParseSignedDigits | dashboard.py:27 | a whole number with an optional `+` or `-` and leading zeros is read as its signed value ("+12" is 12, "-007" is -7) |
| Numbers.ParseFixedPoint | dashboard.py:27 | `whole.frac`, optionally signed, is read as whole plus frac scaled by a power of ten |
| Numbers.CleanFromInput | dashboard.py:27 | cleaning only removes characters: every character of the result is one of the input |
| Numbers.NoDigitNoDecimal | dashboard.py:27 | text without a digit is no decimal |
| Numbers.ToNumeric | dashboard.py:59 | `pd.to_numeric(..., errors='coerce')` on one string: surrounding ASCII blanks skipped, then the scanner; anything else is missing |
| Numbers.ToNumericAccepts | dashboard.py:59 | coercion yields a number exactly when the text, without surrounding ASCII blanks, is a decimal |
| Numbers.ToNumericOfClean | dashboard.py:27 | on cleaned text coercion is the decimal parser, and succeeds exactly on a decimal |
| Numbers.NatDigitsValue | dashboard.py:27 | the digits written for a natural number read back as that number |
| Numbers.ToNumericFormatInt | dashboard.py:27 | every integer written in decimal is coerced back to itself |
| Normalizer.NormalizeCell | dashboard.py:26-27 | a normalised cell is never text |
| Normalizer.NormalizeCellMeaning | dashboard.py:26-27 | a cell becomes a number exactly when its cleaned text is a decimal, with that decimal's value; otherwise it becomes missing, never zero |
| Normalizer.NormalizeColumn | dashboard.py:29-30 | column `j` of every row is replaced by its normalised cell; every other cell, the labels and the row count stay |
| Normalizer.NormalizeColumnIsNumeric | dashboard.py:29-30 | the frame stays well formed and the normalised column holds no text |
| Normalizer.Preprocess | dashboard.py:29-30 | only the PE and RoE % cells change, each to its normalised value |
| Normalizer.NormalizeDecimal | dashboard.py:26-27 | a cell whose cleaned text is a decimal becomes that decimal |
| Normalizer.CleanThousands | dashboard.py:27 | cleaning a number with one thousands separator and a point (`high,low.frac`) gives `highlow.frac` |
| Normalizer.NormalizeThousands | dashboard.py:26-27 | a number written with a thousands separator (such as "1,234.5") becomes the number without it |
| Normalizer.NormalizeNoDigits | dashboard.py:26-27 | text without a digit, such as "n/a", "-" or the empty cell, becomes missing, never zero |
| Normalizer.NormalizeGrouped | dashboard.py:26-27 | a whole number written with a thousands separator (such as "1,234") becomes the number without it |
| Normalizer.NormalizeDigits | dashboard.py:26-27 | a whole number written in plain digits becomes its value |
| Normalizer.PreprocessDigits | dashboard.py:29-30 | in a one-row frame PE and RoE % written in plain digits become those numbers |
| Filtering.SliderValues | dashboard.py:22-23 | what the sliders produce: whole numbers in [0, 100], the PE range ordered |
| Filtering.Defaults | dashboard.py:22-23 | the sliders' initial positions: PE in [0, 50], RoE % at least 10, no industry selected |
| Filtering.AtLeast | dashboard.py:33 | `cell >= bound`, false when the cell is missing (NaN) |
| Filtering.AtMost | dashboard.py:34 | `cell <= bound`, false when the cell is missing (NaN) |
| Filtering.InRanges | dashboard.py:33-35 | the slider mask: PE in [min, max] and RoE % at least the minimum |
| Filtering.InIndustries | dashboard.py:39 | `isin`: the industry is an entry of the selection, by value, so a missing industry matches a missing entry |
| Filtering.Qualifies | dashboard.py:32-39 | the whole condition: the slider mask, and the industry mask only when the selection is not empty |
| Seqs.Filter | dashboard.py:32-39 | a boolean mask: the elements meeting the predicate, in their order; never longer than the input |
| Filtering.FilterRows | dashboard.py:32-39 | every row shown is an input row meeting the whole condition |
| Filtering.FilterRowsExact | dashboard.py:32-39 | the two masks in turn select exactly the rows meeting the whole condition, in order |
| Filtering.FilterRowsSingle | dashboard.py:32-39 | a one-row table is shown exactly when its row meets the whole condition |
| Filtering.FilterRowsBounds | dashboard.py:32-36 | every row shown has PE in [min, max] and RoE % at least the minimum, both present; and an industry in a non-empty selection |
| Filtering.FilterRowsComplete | dashboard.py:32-39 | no qualifying row is dropped |
| Filtering.FilterRowsOrder | dashboard.py:32-39 | filtering keeps the table's order: it distributes over consecutive parts |
| Filtering.FilterRowsCount | dashboard.py:32-39 | a qualifying row is kept as often as it occurs, any other row never |
| Filtering.NoIndustrySelected | dashboard.py:38-39 | an empty industry selection adds no restriction |
| Filtering.AbsentIndustries | dashboard.py:38-39 | selecting only industries absent from the rows gives an empty table, not an error |
| Filtering.FilterKeepsAllInRange | dashboard.py:32-39 | with no industry selected and every row inside the ranges, the whole table is shown |
| Filtering.WidestFilterDropsMissing | dashboard.py:32-36 | even with the widest sliders a row whose PE or RoE % is missing is dropped, so the filter is not the identity on a table holding one |
| Filtering.DefaultsQualify | dashboard.py:22-23 | under the initial slider positions a row with numeric PE and RoE %, fractional values included, qualifies exactly when PE is in [0, 50] and RoE % at least 10 |
| Seqs.Unique | dashboard.py:47 | `.unique()`: no duplicates, and an element is in the result exactly when it is in the input |
| Selection.CompanyOptions | dashboard.py:47 | the options contain no duplicates |
| Selection.CompanyOptionsAreNames | dashboard.py:47 | every option is the name of a shown row, every shown row's name is an option, and there are no more options than rows |
| Selection.CompanyOptionsOrder | dashboard.py:47 | options come in the order in which names first appear |
| Selection.NameEquals | dashboard.py:49 | the `==` of line 49: a choice was made and the name equals it; a missing name never matches |
| Selection.SelectCompany | dashboard.py:49 | a selected record is a shown row carrying the chosen name; failure is `NoMatchingRecord` |
| Selection.SelectFirstMatch | dashboard.py:49 | selection succeeds exactly when some shown row carries the name, and returns the first such row |
| Selection.SelectFromEmpty | dashboard.py:47-49 | on an empty table the selection fails for every choice |
| Selection.SelectOffered | dashboard.py:47-49 | choosing an offered name that is not missing always finds a row with that name |
| Selection.SelectMissingName | dashboard.py:47-49 | a missing name, or no choice at all, never matches |
| Trend.CellToNumber | dashboard.py:59 | `pd.to_numeric` on one cell: text is coerced, a number stays, a missing cell stays missing |
| Trend.ReturnTrend | dashboard.py:58-59 | exactly five points, labelled with the five return columns in their fixed order |
| Trend.ReturnTrendPointwise | dashboard.py:59 | each point depends only on its own column: changing one cell changes only the points read from it |
| Trend.ReturnTrendMalformed | dashboard.py:59 | a cell that is no number gives a missing point at its own place, and the trend keeps five points |
| Trend.CommaIsNoDecimal | dashboard.py:59 | text containing a comma is never a decimal |
| Trend.ReturnsKeepSeparators | dashboard.py:59 | a return cell "1,234" gives a missing trend point, while the PE and RoE % normalisation reads the same text as 1234 |
| Dashboard.Render | dashboard.py:14-59 | no input rows give `NoHeaderRow`; a successful pass shows a record from the shown table and five trend points |
| Dashboard.RenderShows | dashboard.py:32-59 | the pass shows exactly the normalised rows meeting the criteria, offers their distinct names, succeeds exactly when one of them carries the chosen name, and then shows the first such row and that row's trend |
| Dashboard.RenderUnresolved | dashboard.py:21-59 | a pass whose columns do not resolve ends with the error of the first label, in the order the script reads them, that is missing or repeated |
| Dashboard.RenderNothingShown | dashboard.py:47-49 | when no row meets the criteria the pass ends with `NoMatchingRecord` |
| Dashboard.RenderRecord | dashboard.py:32-59 | the shown record has numeric PE and RoE % within the slider settings, and the trend is labelled with the five return columns in order |
| Dashboard.DefaultSettings | dashboard.py:22-39 | with the sliders in their initial positions, in a one-row table whose PE and RoE % are plain digits, the row is shown exactly when PE is at most 50 and RoE % at least 10 |

## Left out

- Reading the CSV file (`pd.read_csv`, line 9): the model starts from the rows
  `read_csv` produces. The file's own first line, which `read_csv` uses as its
  header and the script then discards, is not part of the model; nor is a
  missing or unreadable file.
- `st.cache_data` (line 7): caching returns a copy of the loaded frame on each
  pass, so every pass starts from the text cells; `Dashboard.Render` takes the
  rows afresh.
- The widgets and displays (`st.title`, `st.sidebar.*`, `st.dataframe`,
  `st.write`, `st.markdown`, `st.pyplot`) and the chart (lines 61-65): their
  outputs are inputs, their inputs are the values `View` holds.
- The options of the industry multiselect (line 21): any selection is allowed.
- `Numbers.ParseDecimal`: covers the plain decimal notation only; pandas also
  reads exponents, `inf` and `nan`, and rounds to 64-bit floating point, none
  of which is modelled (values are exact reals).
- `Frames.ResolveLayout`: all columns the pass reads are resolved before the
  pass, so when several failures apply the model may name a different one than
  the script raises first. It also rejects a repeated `Current Price` label,
  which the script displays as a series; a repeated return label ends the
  script's pass too, at the plot on line 62, outside the model.
- `Trend.CellToNumber`: a repeated return label, for which `company_data[y]`
  is a series rather than a cell, is not modelled.
