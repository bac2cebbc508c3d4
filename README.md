# Keyword-metrics pipeline, modelled in Dafny

The upload handler of `url_generator_streamlit.py` turns a keyword report
spreadsheet into a list of keyword records. It takes the frame that pandas
has read (the metadata row already skipped) and:

- splits the columns by position: column 0 is the query, columns 1-7 are
  revenue, 8-14 revenue per click, 15-21 clicks;
- cleans every metric cell (`clean_numeric`): the cell becomes text, six
  regular-expression substitutions run over it, the result is parsed as a
  number, and a parse failure becomes 0;
- gives every row the mean and the sum of each group, each rounded on its
  own (2 places for money, 0 for clicks);
- strips the query and drops the rows whose lower-cased query is a stop
  word, keeping the others in their order.

The model is pure, like the code: datatypes, functions and lemmas, with no
classes and no loops (the source has none in this part).

- `wrappers.dfy`: `Option` and `Result`.
- `text.dfy` (`Text`): Python's `isspace`, `strip` and ASCII `lower`, the
  deletion of a character class, and `re.sub` with a literal pattern
  (leftmost occurrences, no overlap).
- `decimal.dfy` (`Decimal`): the numerals `to_numeric` accepts here (blanks
  around an optional sign, digits with an optional point and fraction, at
  least one digit), and `str()` of a whole number.
- `rounding.dfy` (`Rounding`): numpy's `round`, which scales by 10^places
  and rounds half to even, for 0 and 2 places, on exact reals.
- `cleaning.dfy` (`Cleaning`): `clean_numeric` on one cell.
- `metrics.dfy` (`KeywordMetrics`): the frame, the column groups, the
  per-row record, the stop-word filter and the whole pipeline `Aggregate`.

A frame is its column count and its rows of cells. A cell is `Missing`
(NaN) or a value held as the text `str()` gives for it. A row shorter than
the frame reads `Missing` past its end, as pandas pads it.

Two behaviours of the code that may be surprising:

- A frame with fewer than 22 columns raises no error. Python slicing gives
  shorter (possibly empty) groups. The mean of an empty group is NaN, modelled
  as `None`, and its sum is 0. Only a frame without any column fails, because
  `df.iloc[:, 0]` raises there. The model follows the code.
- The `' '` entry of the stop-word list can never match, because the query
  is stripped first (`BlankEntryUnreachable`).

## Model

| member | source | states |
|---|---|---|
| `Text.StripIsMiddle` | url_generator_streamlit.py:44 | `strip` removes exactly a whitespace prefix and suffix; the result is empty or has non-blank ends; it is empty exactly when the text is all whitespace |
| `Text.StripIdempotent` | url_generator_streamlit.py:44 | stripping a stripped query changes nothing |
| `Text.TrimNoBlankEnds` | url_generator_streamlit.py:44 | a text without blanks at its ends is its own strip |
| `Text.LowerKeepsSpace` | url_generator_streamlit.py:55 | lower-casing neither creates nor removes whitespace |
| `Text.DeleteChars` | url_generator_streamlit.py:32 | `[\$,]` -> '' leaves no `$` or `,`, keeps only characters of the input, and leaves a text without them unchanged |
| `Text.DeleteCharsAppend` | url_generator_streamlit.py:32 | deleting the marks works piece by piece and keeps order |
| `Text.ReplaceAllAbsent` | url_generator_streamlit.py:34-37 | a token substitution leaves a text without the token's first character unchanged |
| `Text.ReplaceAllNoOccurrence` | url_generator_streamlit.py:34-37 | a token substitution leaves a text without the token unchanged |
| `Text.ReplaceAllEliminates` | url_generator_streamlit.py:37 | after `'-'` -> `'0'` no hyphen is left anywhere in the text |
| `Text.ReplaceAllWhole` | url_generator_streamlit.py:34-37 | a cell that is exactly a token becomes exactly `0` |
| `Decimal.NatText` | url_generator_streamlit.py:30 | the text of a whole number is non-empty, all digits, and reads back as the number |
| `Decimal.ParseDigits` | url_generator_streamlit.py:39 | a run of digits parses as its value |
| `Decimal.ParsePointed` | url_generator_streamlit.py:39 | digits, a point and digits parse as whole part plus fraction |
| `Decimal.ParseNumberNoMinus` | url_generator_streamlit.py:39 | text without a hyphen never parses as a negative number |
| `Decimal.ParseNumberAccepts` | url_generator_streamlit.py:39 | a text parses exactly when it is a numeral: blanks around an optional sign and an unsigned numeral |
| `Decimal.ParseUnsignedAccepts` | url_generator_streamlit.py:39 | an unsigned text parses exactly when it holds only digits and at most one point, with at least one digit |
| `Decimal.ParseCentsText` | url_generator_streamlit.py:39 | a two-decimal rendering of an amount in cents parses back as that amount |
| `Rounding.RoundHalfEven` | url_generator_streamlit.py:47-52 | the rounded integer lies within one half of the value |
| `Rounding.RoundHalfEvenTie` | url_generator_streamlit.py:47-52 | an exact tie goes to the even neighbour |
| `Rounding.RoundHalfEvenInt` | url_generator_streamlit.py:47-52 | an integer rounds to itself |
| `Rounding.RoundHalfEvenMonotone` | url_generator_streamlit.py:47-52 | rounding to an integer is monotone |
| `Rounding.RoundIsNearest` | url_generator_streamlit.py:47-52 | `round(places)` is within half a unit of the last kept place |
| `Rounding.RoundIdempotent` | url_generator_streamlit.py:47-52 | rounding a rounded value changes nothing |
| `Rounding.RoundMonotone` | url_generator_streamlit.py:47-52 | a larger value never rounds to a smaller one |
| `Rounding.RoundNonNegative` | url_generator_streamlit.py:47-52 | a non-negative value rounds to a non-negative value |
| `Cleaning.CleanIsParseOrZero` | url_generator_streamlit.py:39 | cleaning never fails: a cell whose substituted text is outside the numeral grammar (ASCII blanks around an optional sign, digits with at most one point, at least one digit) reads as 0, and one inside it reads as the number it spells |
| `Cleaning.CleanNeverNegative` | url_generator_streamlit.py:37-39 | no cleaned value is negative, because every hyphen becomes `0` |
| `Cleaning.CleanMinusReadsPositive` | url_generator_streamlit.py:37-39 | `"-"` followed by a whole number reads as that number (`"-5"` reads as 5) |
| `Cleaning.NormalizeMinusDigits` | url_generator_streamlit.py:31-38 | `"-"` followed by digits is substituted to `"0"` followed by the same digits |
| `Cleaning.NormalizeUntouched` | url_generator_streamlit.py:31-38 | text that, once `$` and `,` are deleted, is not blank and holds none of the tokens `nan`, `#N/A`, `None`, `-` anywhere is changed only by deleting `$` and `,` |
| `Cleaning.NormalizeNumeral` | url_generator_streamlit.py:31-38 | digits and points, with the marks gone, pass the substitutions unchanged |
| `Cleaning.NormalizePlain` | url_generator_streamlit.py:31-33 | text without marks that does not start blank meets only the token substitutions |
| `Cleaning.ParsePlainDigits` | url_generator_streamlit.py:39 | a text of digits reads as its value |
| `Cleaning.CleanCurrencyAmount` | url_generator_streamlit.py:30-39 | an amount written with `$`, separators and two decimals reads as the amount |
| `Cleaning.CleanExampleAmount` | url_generator_streamlit.py:30-39 | `"$1,234.50"` reads as 1234.5 |
| `Cleaning.DeleteMarksBetween` | url_generator_streamlit.py:32 | a leading `$` and an inner `,` both vanish |
| `Cleaning.CleanDollarWhole` | url_generator_streamlit.py:30-39 | `"$"` followed by a whole number reads as the number (`"$0"` reads as 0) |
| `Cleaning.CleanWholeNumber` | url_generator_streamlit.py:30-39 | a whole number written plainly reads as itself |
| `Cleaning.CleanBlank` | url_generator_streamlit.py:33-39 | an empty or whitespace-only cell reads as 0 |
| `Cleaning.CleanPlaceholders` | url_generator_streamlit.py:30-39 | `nan`, `#N/A`, `None`, `-` and a missing cell read as 0 |
| `Cleaning.NormalizeNan` | url_generator_streamlit.py:34 | the cell `nan` becomes `0` |
| `Cleaning.NormalizeNotAvailable` | url_generator_streamlit.py:35 | the cell `#N/A` becomes `0` |
| `Cleaning.NormalizeNone` | url_generator_streamlit.py:36 | the cell `None` becomes `0` |
| `Cleaning.NormalizeHyphen` | url_generator_streamlit.py:37 | the cell `-` becomes `0` |
| `Cleaning.ZeroText` | url_generator_streamlit.py:33-39 | the `0` a blank cell becomes is left alone by the later substitutions and reads as 0 |
| `KeywordMetrics.SliceIndices` | url_generator_streamlit.py:25-27 | a column slice selects exactly the frame's columns inside the span, in order, however few the frame has |
| `KeywordMetrics.Cells` | url_generator_streamlit.py:25-30 | a group has as many cells as its slice has columns |
| `KeywordMetrics.CellsAreSlice` | url_generator_streamlit.py:25-30 | the cells of a group are those at the sliced positions, in order |
| `KeywordMetrics.CleanAll` | url_generator_streamlit.py:39-43 | cleaning keeps the width of a group |
| `KeywordMetrics.FullGroups` | url_generator_streamlit.py:25-27 | with at least 22 columns, the groups are exactly columns 1-7, 8-14 and 15-21 |
| `KeywordMetrics.RowKeywordFirst22` | url_generator_streamlit.py:25-53 | two rows that agree on columns 0-21 give the same record |
| `KeywordMetrics.AggregateIgnoresLaterColumns` | url_generator_streamlit.py:25-55 | columns 22 and beyond never affect the output |
| `KeywordMetrics.NarrowFrame` | url_generator_streamlit.py:25-27 | with 1 to 8 columns the rpc and clicks groups are empty (mean NaN, sum 0) and revenue has the columns after the query |
| `KeywordMetrics.SummarizeFullWidth` | url_generator_streamlit.py:47-52 | with seven columns every mean is the unrounded sum over 7, rounded to 2 places for money and 0 for clicks |
| `KeywordMetrics.RoundedMeanOfSeven` | url_generator_streamlit.py:47 | the mean of seven values is their sum over 7, then rounded |
| `KeywordMetrics.EmptyGroupStats` | url_generator_streamlit.py:47-52 | an empty group has no mean and sums to 0 |
| `KeywordMetrics.SumNonNegative` | url_generator_streamlit.py:48 | the sum of non-negative values is non-negative |
| `KeywordMetrics.SumAppend` | url_generator_streamlit.py:48 | the sum distributes over concatenation |
| `KeywordMetrics.SumZeroFill` | url_generator_streamlit.py:39-48 | a cell read as 0 lowers the sum by exactly its value and still counts in the width |
| `KeywordMetrics.SumBounds` | url_generator_streamlit.py:48 | the sum lies between width times the smallest and width times the largest value |
| `KeywordMetrics.MeanBounds` | url_generator_streamlit.py:47 | the mean times the width is the sum, and the mean lies between the bounds of the values |
| `KeywordMetrics.CleanAllNonNegative` | url_generator_streamlit.py:39-43 | every cleaned cell of a group is non-negative |
| `KeywordMetrics.StatsNonNegative` | url_generator_streamlit.py:47-52 | the rounded sum and mean of non-negative values are non-negative |
| `KeywordMetrics.RowKeywordNonNegative` | url_generator_streamlit.py:45-53 | no total and no average of any record is negative |
| `KeywordMetrics.QueryNoBlankEnds` | url_generator_streamlit.py:44 | a query without blanks at its ends is kept as it is |
| `KeywordMetrics.BlankEntryUnreachable` | url_generator_streamlit.py:44-54 | after the strip no query is `' '`, so that stop word never matches |
| `KeywordMetrics.DroppedExactly` | url_generator_streamlit.py:54-55 | a row is dropped exactly when its lower-cased query is `query`, `total`, `grand total`, `nan`, `#n/a` or empty |
| `KeywordMetrics.MissingQueryDropped` | url_generator_streamlit.py:44-55 | a missing query becomes empty and its row is dropped |
| `KeywordMetrics.TotalRowsDropped` | url_generator_streamlit.py:54-55 | the rows `TOTAL` and `Grand Total` are dropped, whatever blanks surround the label |
| `KeywordMetrics.StopWordRowDropped` | url_generator_streamlit.py:44-55 | a query cell whose stripped text is a stop word in any letter case is dropped |
| `KeywordMetrics.ValidMask` | url_generator_streamlit.py:55 | the mask has one entry per record |
| `KeywordMetrics.TrueIndices` | url_generator_streamlit.py:55 | the mask selects the positions where it is true, all of them, in strictly increasing order |
| `KeywordMetrics.TrueIndicesPrefix` | url_generator_streamlit.py:55 | one more mask entry adds its position at the end exactly when it is true |
| `KeywordMetrics.SelectSpec` | url_generator_streamlit.py:55 | `df[mask]` keeps exactly the true positions, in order, each element unchanged |
| `KeywordMetrics.KeepValidSnoc` | url_generator_streamlit.py:55 | one more record is kept at the end exactly when it is valid |
| `KeywordMetrics.KeepValidCounts` | url_generator_streamlit.py:55 | filtering drops every invalid record and keeps every valid one as often as it occurs, duplicates included |
| `KeywordMetrics.AllKeywords` | url_generator_streamlit.py:45-53 | one record per row |
| `KeywordMetrics.Aggregate` | url_generator_streamlit.py:44-55 | the pipeline fails exactly when the frame has no column |
| `KeywordMetrics.AggregateSelectsRows` | url_generator_streamlit.py:45-56 | the output is the records of the selected rows, in row order, each exactly as its row produced it |
| `KeywordMetrics.AggregateKeepsExactlyValid` | url_generator_streamlit.py:54-55 | a row is selected exactly when its record's query is not a stop word |
| `KeywordMetrics.AggregateQueriesFromColumnZero` | url_generator_streamlit.py:44-56 | each output query is the stripped column 0 of the row it was selected from, a missing cell read as empty, one output per selected row |
| `KeywordMetrics.AggregateQueriesClean` | url_generator_streamlit.py:44-56 | every output query is stripped, non-empty and not a stop word |
| `KeywordMetrics.WorkedExample` | url_generator_streamlit.py:29-55 | the row `Cheap Dental Implants`, `$10`, `$20`, `-`, a missing cell or the text `nan`, `5`, `5`, `5` is kept with total revenue 45 and average revenue 6.43: the dash and the fourth cell read as 0 and still count among the seven |
| `KeywordMetrics.RevenueFigures` | url_generator_streamlit.py:47-48 | a revenue group a, b, 0, 0, c, c, c has total a + b + 3c and average that sum over 7, each rounded to cents |
| `KeywordMetrics.FullRevenueGroup` | url_generator_streamlit.py:25-43 | on a frame of at least 22 columns the revenue group of any row has seven values, the cleaned cells 1 to 7 of the row, in order |
| `KeywordMetrics.PatternRevenueGroup` | url_generator_streamlit.py:25-43 | a full-frame row whose revenue cells clean to a, b, 0, 0, c, c, c has exactly that revenue group |

## Left out

- The Flask application, its routes, `render_template`, `jsonify`, `to_dict` and `app.run`: web plumbing.
- Saving the upload and creating the upload folder: file-system I/O.
- `pd.read_excel` with `skiprows=[0]`: decoding the spreadsheet belongs to a foreign library. The model starts from the frame's rows of cells, the metadata row already gone. The header row pandas takes as column names is not a data row.
- The mapping of any exception to an HTTP 500 answer. The one exception inside the core, `iloc[:, 0]` on a frame without columns, is `Failure(NoQueryColumn)`.
- IEEE floating point: values are exact reals. Sums, means and rounding are exact, so a value such as 2.675 rounds as the real number does, not as its binary approximation.
- `to_numeric` forms beyond signed decimals, such as exponents and `inf`. They read as parse failures, so as 0.
- pandas' `replace` with a dictionary decides which cells each pattern may change by matching the pattern against the original cell, then applies the changes in order. The model applies each substitution to the previous result. So `"$"` and `"$ "` become `""` and `" "` in pandas but `"0"` in the model; all of them read as 0. The cleaned values differ only when deleting `$` or `,` joins the letters of a token inside an otherwise numeric cell: `"1na,n"` reads as 0 in pandas and as 10 in the model.
- `str.lower` is modelled on ASCII letters only; other letters keep their case.
- `Rounding.Round` covers 0 and 2 places, the two precisions used.
- The text of non-string cells (numbers, dates) is taken as given: a cell is the text `astype(str)` produces, and `str()` of a float is not modelled.
