/** The keyword-metrics pipeline of the upload handler, from the frame read
    out of the spreadsheet (metadata row already skipped) to the list of
    keyword records: positional column groups, cleaned cells, per-row sums
    and means, query normalisation and the stop-word filter. */
module KeywordMetrics {
  import opened Wrappers
  import opened Text
  import opened Cleaning
  import opened Rounding
  import opened Decimal

  type Row = seq<Cell>

  /** The frame: its number of columns and its rows. pandas pads a short
      row with NaN, so a row shorter than the frame reads Missing beyond its
      end, and cells past `columns` are never addressed. */
  datatype Frame = Frame(columns: nat, rows: seq<Row>)

  function CellAt(row: Row, j: nat): Cell {
    if j < |row| then row[j] else Missing
  }

  /** A half-open range of column positions, `start:stop` in Python. */
  datatype Span = Span(start: nat, stop: nat)

  const RevenueColumns := Span(1, 8)
  const RpcColumns := Span(8, 15)
  const ClicksColumns := Span(15, 22)

  /** The positions `range(n)[start:stop]` selects: exactly the columns the
      frame has inside the span, in order. With fewer columns than the span
      needs, the group is shorter (possibly empty); no error is raised. */
  function SliceIndices(n: nat, sp: Span): (ix: seq<nat>)
    requires sp.start <= sp.stop
    ensures forall j :: j in ix <==> sp.start <= j < sp.stop && j < n
    ensures forall k :: 0 <= k < |ix| ==> ix[k] == sp.start + k
    ensures |ix| == SliceWidth(n, sp)
  {
    if n <= sp.start then []
    else
      var stop := if n < sp.stop then n else sp.stop;
      var ix := seq(stop - sp.start, k requires 0 <= k < stop - sp.start => sp.start + k);
      forall j | sp.start <= j < stop ensures j in ix {
        assert ix[j - sp.start] == j;
      }
      ix
  }

  /** How many columns `start:stop` selects from a frame of `n` columns. */
  function SliceWidth(n: nat, sp: Span): nat
    requires sp.start <= sp.stop
  {
    if n <= sp.start then 0 else (if n < sp.stop then n else sp.stop) - sp.start
  }

  /** `df[cols]` for one row: the cells of the columns the slice selects. */
  function Cells(row: Row, n: nat, sp: Span): (cs: seq<Cell>)
    requires sp.start <= sp.stop
    ensures |cs| == SliceWidth(n, sp)
  {
    seq(SliceWidth(n, sp), k requires 0 <= k < SliceWidth(n, sp) => CellAt(row, sp.start + k))
  }

  /** clean_numeric applied to the cells of one row, cell by cell. */
  function CleanAll(cs: seq<Cell>): (vs: seq<real>)
    ensures |vs| == |cs|
  {
    seq(|cs|, k requires 0 <= k < |cs| => CleanCell(cs[k]))
  }

  /** The cleaned values of one column group of a row, in column order. */
  function Group(row: Row, n: nat, sp: Span): seq<real>
    requires sp.start <= sp.stop
  {
    CleanAll(Cells(row, n, sp))
  }

  /** The cells of a group are those at exactly the positions the slice
      selects, in the slice's order. */
  lemma CellsAreSlice(row: Row, n: nat, sp: Span)
    requires sp.start <= sp.stop
    ensures var ix := SliceIndices(n, sp);
      |Cells(row, n, sp)| == |ix|
      && forall k :: 0 <= k < |ix| ==> Cells(row, n, sp)[k] == CellAt(row, ix[k])
  {
  }

  /** sum(axis=1): the sum of an empty group is 0. */
  function Sum(xs: seq<real>): real {
    if |xs| == 0 then 0.0 else Sum(xs[..|xs| - 1]) + xs[|xs| - 1]
  }

  /** mean(axis=1): the sum over the group's width; pandas gives NaN (None
      here) for a group without columns. */
  function Mean(xs: seq<real>): Option<real> {
    if |xs| == 0 then None else Some(Sum(xs) / |xs| as real)
  }

  function RoundedMean(xs: seq<real>, places: nat): Option<real>
    requires SupportedPlaces(places)
  {
    match Mean(xs)
    case None => None
    case Some(m) => Some(Round(m, places))
  }

  /** One record of the output, with the columns of metrics_df. */
  datatype Keyword = Keyword(
    query: string,
    avgRevenue: Option<real>, totalRevenue: real,
    avgRpc: Option<real>, totalRpc: real,
    avgClicks: Option<real>, totalClicks: real)

  /** fillna('') then astype(str): a missing query is the empty text. */
  function QueryText(c: Cell): string {
    match c
    case Missing => ""
    case Value(t) => t
  }

  /** The query of a row: column 0, null-filled, as text, stripped. */
  function Query(row: Row): string {
    Strip(QueryText(CellAt(row, 0)))
  }

  /** One row of metrics_df, from the query and the cleaned groups:
      means and sums rounded to 2 places for money, 0 for clicks. */
  function Summarize(query: string, revenue: seq<real>, rpc: seq<real>, clicks: seq<real>): Keyword {
    Keyword(query,
      RoundedMean(revenue, 2), Round(Sum(revenue), 2),
      RoundedMean(rpc, 2), Round(Sum(rpc), 2),
      RoundedMean(clicks, 0), Round(Sum(clicks), 0))
  }

  /** The record built for one row of a frame with `n` columns. */
  function RowKeyword(row: Row, n: nat): Keyword {
    Summarize(Query(row),
      Group(row, n, RevenueColumns), Group(row, n, RpcColumns), Group(row, n, ClicksColumns))
  }

  /** invalid_queries, compared with the lower-cased query. */
  const InvalidQueries: seq<string> := ["query", "total", "grand total", "nan", "#n/a", "", " "]

  predicate IsInvalid(k: Keyword) {
    Lower(k.query) in InvalidQueries
  }

  /** The boolean mask `~query.str.lower().isin(invalid_queries)`. */
  function ValidMask(ks: seq<Keyword>): (m: seq<bool>)
    ensures |m| == |ks|
  {
    seq(|ks|, i requires 0 <= i < |ks| => !IsInvalid(ks[i]))
  }

  /** The positions a boolean mask selects, in increasing order. */
  function TrueIndices(m: seq<bool>): (ix: seq<nat>)
    ensures forall j :: 0 <= j < |ix| ==> ix[j] < |m| && m[ix[j]]
    ensures forall j, l :: 0 <= j < l < |ix| ==> ix[j] < ix[l]
    ensures forall i :: 0 <= i < |m| && m[i] ==> i in ix
  {
    if |m| == 0 then []
    else
      var ix := TrueIndices(m[..|m| - 1]);
      assert forall i :: 0 <= i < |m| - 1 ==> m[..|m| - 1][i] == m[i];
      if m[|m| - 1] then ix + [|m| - 1] else ix
  }

  /** df[mask]: the rows the mask selects, in their original order. */
  function Select(ks: seq<Keyword>, m: seq<bool>): seq<Keyword>
    requires |m| == |ks|
  {
    var ix := TrueIndices(m);
    seq(|ix|, j requires 0 <= j < |ix| => ks[ix[j]])
  }

  function KeepValid(ks: seq<Keyword>): seq<Keyword> {
    Select(ks, ValidMask(ks))
  }

  /** The error the handler's try block catches: `df.iloc[:, 0]` on a
      frame without columns raises IndexError. */
  datatype Error = NoQueryColumn

  /** metrics_df before filtering: one record per row, in row order. */
  function AllKeywords(f: Frame): (ks: seq<Keyword>)
    ensures |ks| == |f.rows|
  {
    seq(|f.rows|, i requires 0 <= i < |f.rows| => RowKeyword(f.rows[i], f.columns))
  }

  /** The whole pipeline. Only a frame without any column fails; a frame
      with fewer than 22 columns gives shorter groups. */
  function Aggregate(f: Frame): (r: Result<seq<Keyword>, Error>)
    ensures r.Failure? <==> f.columns == 0
  {
    if f.columns == 0 then Failure(NoQueryColumn) else Success(KeepValid(AllKeywords(f)))
  }

  // ---------------------------------------------------------------------
  // Sums and means

  lemma {:induction false} SumNonNegative(xs: seq<real>)
    requires forall i :: 0 <= i < |xs| ==> xs[i] >= 0.0
    ensures Sum(xs) >= 0.0
  {
    if |xs| > 0 {
      SumNonNegative(xs[..|xs| - 1]);
    }
  }

  /** Sum distributes over concatenation. */
  lemma {:induction false} SumAppend(a: seq<real>, b: seq<real>)
    ensures Sum(a + b) == Sum(a) + Sum(b)
  {
    if |b| > 0 {
      assert (a + b)[..|a + b| - 1] == a + b[..|b| - 1];
      SumAppend(a, b[..|b| - 1]);
    } else {
      assert a + b == a;
    }
  }

  /** Zero-fill: a cell read as 0 still counts, so replacing one value by 0
      lowers the sum by exactly that value and leaves the width alone. */
  lemma SumZeroFill(xs: seq<real>, i: nat)
    requires i < |xs|
    ensures Sum(xs[i := 0.0]) == Sum(xs) - xs[i]
    ensures |xs[i := 0.0]| == |xs|
  {
    var ys := xs[i := 0.0];
    assert xs == xs[..i] + [xs[i]] + xs[i + 1..];
    assert ys == xs[..i] + [0.0] + xs[i + 1..];
    SumAppend(xs[..i] + [xs[i]], xs[i + 1..]);
    SumAppend(xs[..i], [xs[i]]);
    SumAppend(xs[..i] + [0.0], xs[i + 1..]);
    SumAppend(xs[..i], [0.0]);
    assert Sum([xs[i]]) == xs[i] by { assert [xs[i]][..0] == []; }
    assert Sum([0.0]) == 0.0 by { assert [0.0][..0] == []; }
  }

  /** The mean of a non-empty group times its width is its sum, and it
      lies between the group's smallest and largest values. */
  lemma MeanBounds(xs: seq<real>, lo: real, hi: real)
    requires |xs| > 0
    requires forall i :: 0 <= i < |xs| ==> lo <= xs[i] <= hi
    ensures Mean(xs).Some? && Mean(xs).value * |xs| as real == Sum(xs)
    ensures lo <= Mean(xs).value <= hi
  {
    var n := |xs| as real;
    SumBounds(xs, lo, hi);
    MeanBetween(Sum(xs), n, lo, hi);
  }

  lemma MeanBetween(s: real, n: real, lo: real, hi: real)
    requires n >= 1.0 && n * lo <= s <= n * hi
    ensures (s / n) * n == s && lo <= s / n <= hi
  {
  }

  lemma {:induction false} SumBounds(xs: seq<real>, lo: real, hi: real)
    requires forall i :: 0 <= i < |xs| ==> lo <= xs[i] <= hi
    ensures |xs| as real * lo <= Sum(xs) <= |xs| as real * hi
  {
    if |xs| > 0 {
      SumBounds(xs[..|xs| - 1], lo, hi);
      assert |xs| as real * lo == (|xs| - 1) as real * lo + lo;
      assert |xs| as real * hi == (|xs| - 1) as real * hi + hi;
    }
  }

  // ---------------------------------------------------------------------
  // Column partition

  /** On a frame of at least 22 columns each group is exactly its seven
      columns: revenue 1-7, rpc 8-14, clicks 15-21. */
  lemma FullGroups(row: Row, n: nat)
    requires n >= 22
    ensures var cs := Cells(row, n, RevenueColumns);
      |cs| == 7 && forall k :: 0 <= k < 7 ==> cs[k] == CellAt(row, 1 + k)
    ensures var cs := Cells(row, n, RpcColumns);
      |cs| == 7 && forall k :: 0 <= k < 7 ==> cs[k] == CellAt(row, 8 + k)
    ensures var cs := Cells(row, n, ClicksColumns);
      |cs| == 7 && forall k :: 0 <= k < 7 ==> cs[k] == CellAt(row, 15 + k)
  {
  }

  /** Averages over seven columns divide by 7, zero-filled cells included. */
  lemma SummarizeFullWidth(q: string, revenue: seq<real>, rpc: seq<real>, clicks: seq<real>)
    requires |revenue| == 7 && |rpc| == 7 && |clicks| == 7
    ensures var k := Summarize(q, revenue, rpc, clicks);
      && k.avgRevenue == Some(Round(Sum(revenue) / 7.0, 2))
      && k.avgRpc == Some(Round(Sum(rpc) / 7.0, 2))
      && k.avgClicks == Some(Round(Sum(clicks) / 7.0, 0))
  {
    RoundedMeanOfSeven(revenue, 2);
    RoundedMeanOfSeven(rpc, 2);
    RoundedMeanOfSeven(clicks, 0);
  }

  lemma RoundedMeanOfSeven(xs: seq<real>, places: nat)
    requires |xs| == 7 && SupportedPlaces(places)
    ensures RoundedMean(xs, places) == Some(Round(Sum(xs) / 7.0, places))
  {
    assert Mean(xs) == Some(Sum(xs) / 7.0);
  }

  /** A group without columns has no mean (NaN) and sums to 0. */
  lemma EmptyGroupStats(places: nat)
    requires SupportedPlaces(places)
    ensures RoundedMean([], places) == None && Round(Sum([]), places) == 0.0
  {
    RoundHalfEvenInt(0);
    assert 0.0 * 100.0 == 0.0;
  }

  /** Two rows that agree on columns 0-21 give the same record, whatever
      their later columns hold and however many columns past 21 exist. */
  lemma RowKeywordFirst22(r1: Row, n1: nat, r2: Row, n2: nat)
    requires n1 >= 22 && n2 >= 22
    requires forall j :: 0 <= j < 22 ==> CellAt(r1, j) == CellAt(r2, j)
    ensures RowKeyword(r1, n1) == RowKeyword(r2, n2)
  {
    FullGroups(r1, n1);
    FullGroups(r2, n2);
    assert Cells(r1, n1, RevenueColumns) == Cells(r2, n2, RevenueColumns);
    assert Cells(r1, n1, RpcColumns) == Cells(r2, n2, RpcColumns);
    assert Cells(r1, n1, ClicksColumns) == Cells(r2, n2, ClicksColumns);
    assert CellAt(r1, 0) == CellAt(r2, 0);
  }

  /** Columns 22 and beyond never affect the output. */
  lemma AggregateIgnoresLaterColumns(f: Frame, g: Frame)
    requires f.columns >= 22 && g.columns >= 22 && |f.rows| == |g.rows|
    requires forall i, j :: 0 <= i < |f.rows| && 0 <= j < 22 ==> CellAt(f.rows[i], j) == CellAt(g.rows[i], j)
    ensures Aggregate(f) == Aggregate(g)
  {
    forall i | 0 <= i < |f.rows|
      ensures AllKeywords(f)[i] == AllKeywords(g)[i]
    {
      RowKeywordFirst22(f.rows[i], f.columns, g.rows[i], g.columns);
    }
    assert AllKeywords(f) == AllKeywords(g);
  }

  /** A frame narrower than 22 columns is not rejected: with at most 8
      columns the rpc and clicks groups are empty (their means NaN, their
      sums 0) and the revenue group holds the columns after the query. */
  lemma NarrowFrame(row: Row, n: nat)
    requires 1 <= n <= 8
    ensures |Group(row, n, RpcColumns)| == 0 && |Group(row, n, ClicksColumns)| == 0
    ensures |Group(row, n, RevenueColumns)| == n - 1
    ensures RowKeyword(row, n).avgRpc == None && RowKeyword(row, n).totalRpc == 0.0
    ensures RowKeyword(row, n).avgClicks == None && RowKeyword(row, n).totalClicks == 0.0
  {
    EmptyGroupStats(2);
    EmptyGroupStats(0);
    assert Group(row, n, RpcColumns) == [] && Group(row, n, ClicksColumns) == [];
  }

  // ---------------------------------------------------------------------
  // Non-negativity

  lemma CleanAllNonNegative(cs: seq<Cell>)
    ensures forall k :: 0 <= k < |CleanAll(cs)| ==> CleanAll(cs)[k] >= 0.0
  {
    forall k | 0 <= k < |cs| ensures CleanAll(cs)[k] >= 0.0 {
      CleanNeverNegative(CellText(cs[k]));
    }
  }

  lemma StatsNonNegative(xs: seq<real>, places: nat)
    requires SupportedPlaces(places)
    requires forall i :: 0 <= i < |xs| ==> xs[i] >= 0.0
    ensures Round(Sum(xs), places) >= 0.0
    ensures RoundedMean(xs, places).Some? ==> RoundedMean(xs, places).value >= 0.0
  {
    SumNonNegative(xs);
    RoundNonNegative(Sum(xs), places);
    if |xs| > 0 {
      var s := Sum(xs);
      assert s / |xs| as real >= 0.0;
      RoundNonNegative(s / |xs| as real, places);
    }
  }

  /** No total and no average of any record is negative. */
  lemma RowKeywordNonNegative(row: Row, n: nat)
    ensures var k := RowKeyword(row, n);
      && k.totalRevenue >= 0.0 && k.totalRpc >= 0.0 && k.totalClicks >= 0.0
      && (k.avgRevenue.Some? ==> k.avgRevenue.value >= 0.0)
      && (k.avgRpc.Some? ==> k.avgRpc.value >= 0.0)
      && (k.avgClicks.Some? ==> k.avgClicks.value >= 0.0)
  {
    CleanAllNonNegative(Cells(row, n, RevenueColumns));
    CleanAllNonNegative(Cells(row, n, RpcColumns));
    CleanAllNonNegative(Cells(row, n, ClicksColumns));
    StatsNonNegative(Group(row, n, RevenueColumns), 2);
    StatsNonNegative(Group(row, n, RpcColumns), 2);
    StatsNonNegative(Group(row, n, ClicksColumns), 0);
  }

  // ---------------------------------------------------------------------
  // Query normalisation and the stop-word filter

  /** After strip no query is a single blank, so the ' ' entry of the list
      can never match. */
  lemma BlankEntryUnreachable(row: Row)
    ensures Lower(Query(row)) != " "
  {
    var q := Query(row);
    StripIsMiddle(QueryText(CellAt(row, 0)));
    if |q| == 1 {
      LowerKeepsSpace(q[0]);
      assert Lower(q)[0] == LowerChar(q[0]);
    }
  }

  /** A row is dropped exactly when its lower-cased query is one of the six
      reachable stop words. */
  lemma DroppedExactly(row: Row, n: nat)
    ensures IsInvalid(RowKeyword(row, n))
        <==> Lower(Query(row)) in ["query", "total", "grand total", "nan", "#n/a", ""]
  {
    BlankEntryUnreachable(row);
  }

  /** A missing query becomes '' and its row is dropped. */
  lemma MissingQueryDropped(row: Row, n: nat)
    requires CellAt(row, 0) == Missing
    ensures IsInvalid(RowKeyword(row, n))
  {
    assert Query(row) == "";
  }

  /** "TOTAL" and "Grand Total" rows are dropped, whatever blanks surround
      the label. */
  lemma TotalRowsDropped(row: Row, n: nat, w: string)
    requires CellAt(row, 0) == Value(w)
    requires Strip(w) == "TOTAL" || Strip(w) == "Grand Total"
    ensures IsInvalid(RowKeyword(row, n))
  {
    if Strip(w) == "TOTAL" {
      LowerTotal();
    } else {
      LowerGrandTotal();
    }
    StopWordRowDropped(row, n, w);
  }

  /** A row whose query cell, stripped, is a stop word in any letter case
      is dropped. */
  lemma StopWordRowDropped(row: Row, n: nat, w: string)
    requires CellAt(row, 0) == Value(w) && Lower(Strip(w)) in InvalidQueries
    ensures IsInvalid(RowKeyword(row, n))
  {
    assert RowKeyword(row, n).query == Strip(w);
  }

  /** A query without blanks at its ends is kept as it is. */
  lemma QueryNoBlankEnds(row: Row)
    requires var t := QueryText(CellAt(row, 0));
      |t| > 0 && !IsSpace(t[0]) && !IsSpace(t[|t| - 1])
    ensures Query(row) == QueryText(CellAt(row, 0))
  {
  }

  lemma LowerTotal()
    ensures Lower("TOTAL") == "total"
  {
  }

  lemma LowerGrandTotal()
    ensures Lower("Grand Total") == "grand total"
  {
  }

  lemma {:induction false} TrueIndicesPrefix(m: seq<bool>, b: bool)
    ensures TrueIndices(m + [b]) == TrueIndices(m) + (if b then [|m|] else [])
  {
    assert (m + [b])[..|m|] == m;
  }

  /** Filtering removes the invalid records, keeps the others in order,
      does not touch them, and keeps duplicates: every valid record occurs
      as often as in the input. */
  lemma {:induction false} KeepValidCounts(ks: seq<Keyword>)
    ensures forall k :: multiset(KeepValid(ks))[k] == if IsInvalid(k) then 0 else multiset(ks)[k]
  {
    if |ks| > 0 {
      var init, last := ks[..|ks| - 1], ks[|ks| - 1];
      KeepValidCounts(init);
      assert ks == init + [last];
      KeepValidSnoc(init, last);
    }
  }

  lemma KeepValidSnoc(ks: seq<Keyword>, k: Keyword)
    ensures KeepValid(ks + [k]) == KeepValid(ks) + (if IsInvalid(k) then [] else [k])
  {
    var m := ValidMask(ks);
    assert ValidMask(ks + [k]) == m + [!IsInvalid(k)];
    TrueIndicesPrefix(m, !IsInvalid(k));
  }

  /** What the pipeline returns: the records of the rows whose query is not
      a stop word, in row order, each exactly as its row produced it. */
  lemma AggregateSelectsRows(f: Frame)
    requires f.columns > 0
    ensures var out := Aggregate(f).value;
      var ix := TrueIndices(ValidMask(AllKeywords(f)));
      && |out| == |ix|
      && (forall j :: 0 <= j < |ix| ==> ix[j] < |f.rows| && out[j] == RowKeyword(f.rows[ix[j]], f.columns))
  {
    var ks := AllKeywords(f);
    SelectSpec(ks, ValidMask(ks));
  }

  /** The rows selected are exactly those whose query is not a stop word. */
  lemma AggregateKeepsExactlyValid(f: Frame)
    requires f.columns > 0
    ensures var ix := TrueIndices(ValidMask(AllKeywords(f)));
      forall i :: 0 <= i < |f.rows| ==> (i in ix <==> !IsInvalid(RowKeyword(f.rows[i], f.columns)))
  {
    var ks := AllKeywords(f);
    SelectSpec(ks, ValidMask(ks));
  }

  /** df[mask] keeps exactly the positions where the mask is true, in
      increasing order, and copies each kept element unchanged. */
  lemma SelectSpec(ks: seq<Keyword>, m: seq<bool>)
    requires |m| == |ks|
    ensures var out := Select(ks, m);
      var ix := TrueIndices(m);
      && |out| == |ix|
      && (forall j :: 0 <= j < |ix| ==> ix[j] < |ks| && out[j] == ks[ix[j]])
      && (forall i :: 0 <= i < |ks| ==> (i in ix <==> m[i]))
  {
    var ix := TrueIndices(m);
    forall i | 0 <= i < |ks| && i in ix ensures m[i] {
      var j :| 0 <= j < |ix| && ix[j] == i;
    }
  }

  /** Every output query is column 0 of its row, stripped, a missing cell
      counting as the empty text. */
  lemma AggregateQueriesFromColumnZero(f: Frame)
    requires f.columns > 0
    ensures var out := Aggregate(f).value;
      var ix := TrueIndices(ValidMask(AllKeywords(f)));
      && |out| == |ix|
      && forall j :: 0 <= j < |ix| ==>
        (ix[j] < |f.rows| &&
         var c := CellAt(f.rows[ix[j]], 0);
         out[j].query == Strip(if c.Missing? then "" else c.text))
  {
    AggregateSelectsRows(f);
  }

  /** Every query in the output is stripped, non-empty and not a stop word. */
  lemma AggregateQueriesClean(f: Frame)
    requires f.columns > 0
    ensures forall k :: k in Aggregate(f).value ==>
      k.query != "" && Strip(k.query) == k.query && Lower(k.query) !in InvalidQueries
  {
    var ks := AllKeywords(f);
    KeepValidCounts(ks);
    forall k | k in Aggregate(f).value
      ensures k.query != "" && Strip(k.query) == k.query && Lower(k.query) !in InvalidQueries
    {
      assert multiset(KeepValid(ks))[k] > 0;
      assert k in ks;
      var i :| 0 <= i < |ks| && ks[i] == k;
      StripIdempotent(QueryText(CellAt(f.rows[i], 0)));
      assert Lower(k.query) != "";
    }
  }

  // ---------------------------------------------------------------------
  // A worked row

  /** A typical report row: query "Cheap Dental Implants", revenue cells
      "$10", "$20", "-", a fourth cell that is missing or the text "nan",
      and three "5"s, in a frame of at least 22 columns. It is kept, with
      total revenue 45 and average revenue 45 / 7 rounded to 6.43: the dash
      and the fourth cell read as 0 and still count in the seven. */
  lemma WorkedExample(row: Row, n: nat)
    requires n >= 22 && |row| >= 8
    requires row[0] == Value("Cheap Dental Implants")
    requires row[1] == Value("$" + NatText(10)) && row[2] == Value("$" + NatText(20))
    requires row[3] == Value("-") && CellText(row[4]) == "nan"
    requires row[5] == Value(NatText(5)) && row[6] == row[5] && row[7] == row[5]
    ensures var k := RowKeyword(row, n);
      && k.query == "Cheap Dental Implants"
      && k.totalRevenue == 45.0 && k.avgRevenue == Some(6.43)
      && !IsInvalid(k)
  {
    RevenueCellsRead(row, 10, 20, 5);
    PatternRevenueGroup(row, n, 10.0, 20.0, 5.0);
    RevenueFigures(Query(row), 10.0, 20.0, 5.0, Group(row, n, RpcColumns), Group(row, n, ClicksColumns));
    ExampleFigures();
    ExampleQuery(row);
  }

  /** On a full frame the revenue group is the cleaned cells 1 to 7, in
      order. */
  lemma FullRevenueGroup(row: Row, n: nat)
    requires n >= 22
    ensures var g := Group(row, n, RevenueColumns);
      |g| == 7 && forall k :: 0 <= k < 7 ==> g[k] == CleanCell(CellAt(row, 1 + k))
  {
    FullGroups(row, n);
  }

  /** A full-frame row whose revenue cells clean to a, b, 0, 0, c, c, c has
      exactly that revenue group. */
  lemma PatternRevenueGroup(row: Row, n: nat, a: real, b: real, c: real)
    requires n >= 22 && |row| >= 8
    requires CleanCell(row[1]) == a && CleanCell(row[2]) == b
    requires CleanCell(row[3]) == 0.0 && CleanCell(row[4]) == 0.0
    requires CleanCell(row[5]) == c && CleanCell(row[6]) == c && CleanCell(row[7]) == c
    ensures Group(row, n, RevenueColumns) == [a, b, 0.0, 0.0, c, c, c]
  {
    FullGroups(row, n);
    var cs := Cells(row, n, RevenueColumns);
    assert cs[0] == row[1] && cs[1] == row[2] && cs[2] == row[3] && cs[3] == row[4];
    assert cs[4] == row[5] && cs[5] == row[6] && cs[6] == row[7];
    var g := Group(row, n, RevenueColumns);
    assert g[0] == a && g[1] == b && g[2] == 0.0 && g[3] == 0.0;
    assert g[4] == c && g[5] == c && g[6] == c;
    SevenOfPattern(g, a, b, c);
  }

  /** The revenue figures of a record whose revenue group reads a, b, 0, 0,
      c, c and c: the total is a + b + 3c and the average that sum over 7,
      each rounded to cents. */
  lemma RevenueFigures(q: string, a: real, b: real, c: real, rpc: seq<real>, clicks: seq<real>)
    ensures var k := Summarize(q, [a, b, 0.0, 0.0, c, c, c], rpc, clicks);
      && k.totalRevenue == Round(a + b + 3.0 * c, 2)
      && k.avgRevenue == Some(Round((a + b + 3.0 * c) / 7.0, 2))
  {
    var vs := [a, b, 0.0, 0.0, c, c, c];
    SumOfSeven(vs);
    SummarizeFullWidth(q, vs, [0.0, 0.0, 0.0, 0.0, 0.0, 0.0, 0.0], [0.0, 0.0, 0.0, 0.0, 0.0, 0.0, 0.0]);
  }

  /** Seven values known one by one make up the revenue pattern a, b, 0, 0,
      c, c, c. */
  lemma SevenOfPattern(xs: seq<real>, a: real, b: real, c: real)
    requires |xs| == 7
    requires xs[0] == a && xs[1] == b && xs[2] == 0.0 && xs[3] == 0.0
    requires xs[4] == c && xs[5] == c && xs[6] == c
    ensures xs == [a, b, 0.0, 0.0, c, c, c]
  {
    var ys := [a, b, 0.0, 0.0, c, c, c];
    assert forall k :: 0 <= k < 7 ==> xs[k] == ys[k];
  }

  /** Dollar amounts, a dash, a missing value and plain numbers, cleaned. */
  lemma RevenueCellsRead(row: Row, a: nat, b: nat, c: nat)
    requires |row| >= 8
    requires row[1] == Value("$" + NatText(a)) && row[2] == Value("$" + NatText(b))
    requires row[3] == Value("-") && CellText(row[4]) == "nan"
    requires row[5] == Value(NatText(c)) && row[6] == row[5] && row[7] == row[5]
    ensures CleanCell(row[1]) == a as real && CleanCell(row[2]) == b as real
    ensures CleanCell(row[3]) == 0.0 && CleanCell(row[4]) == 0.0
    ensures CleanCell(row[5]) == c as real && CleanCell(row[6]) == c as real && CleanCell(row[7]) == c as real
  {
    CleanDollarWhole(a);
    CleanDollarWhole(b);
    CleanPlaceholder(row[3].text);
    CleanPlaceholder(CellText(row[4]));
    CleanWholeNumber(c);
  }

  lemma CleanPlaceholder(t: string)
    requires t == "-" || t == "nan"
    ensures Clean(t) == 0.0
  {
    CleanPlaceholders();
  }

  lemma ExampleQuery(row: Row)
    requires |row| > 0 && row[0] == Value("Cheap Dental Implants")
    ensures Query(row) == "Cheap Dental Implants" && !IsInvalid(Summarize(Query(row), [], [], []))
  {
    QueryNoBlankEnds(row);
    assert |Lower(Query(row))| == 21;
  }

  /** 10 + 20 + 0 + 0 + 5 + 5 + 5 is 45, and 45 / 7 rounds to 6.43. */
  lemma ExampleFigures()
    ensures 10.0 + 20.0 + 3.0 * 5.0 == 45.0
    ensures Round(45.0, 2) == 45.0 && Round(45.0 / 7.0, 2) == 6.43
  {
    RoundHalfEvenInt(4500);
    assert 45.0 * 100.0 == 4500 as real;
    ExampleAverage();
  }

  /** The sum of seven values, added left to right. */
  lemma SumOfSeven(xs: seq<real>)
    requires |xs| == 7
    ensures Sum(xs) == xs[0] + xs[1] + xs[2] + xs[3] + xs[4] + xs[5] + xs[6]
  {
    SumPrefix(xs, 0);
    SumPrefix(xs, 1);
    SumPrefix(xs, 2);
    SumPrefix(xs, 3);
    SumPrefix(xs, 4);
    SumPrefix(xs, 5);
    SumPrefix(xs, 6);
    assert xs[..0] == [] && xs[..7] == xs;
  }

  /** The sum of a prefix one longer adds the next value. */
  lemma SumPrefix(xs: seq<real>, k: nat)
    requires k < |xs|
    ensures Sum(xs[..k + 1]) == Sum(xs[..k]) + xs[k]
  {
    assert xs[..k + 1][..k] == xs[..k];
  }

  lemma ExampleAverage()
    ensures Round(45.0 / 7.0, 2) == 6.43
  {
    var y := 45.0 / 7.0 * 100.0;
    assert 642.0 < y < 643.0;
    assert y.Floor == 642;
  }
}
