/** The sales/target page (`page_satis_hedef`): the same blocks as the
    parser, each with a title; cleaning that coerces the numeric columns;
    grand totals taken from the tables' TOPLAM rows; and the display filter
    that hides those rows. */
module TargetPage {
  import opened Base
  import opened Sheets
  import opened SalesTargets

  const TargetLabel: string := "HEDEF"
  const PercentLabel: string := "%"
  const RemainingLabel: string := "KALAN"

  /** The columns `clean_table` coerces to numbers, in the order it visits them. */
  const NumericLabels: seq<string> := [TargetLabel, SalesLabel, PercentLabel, RemainingLabel]

  /** A block as `tables_raw` holds it: the title cell and the raw rows. */
  datatype RawTable = RawTable(title: Cell, rows: seq<Row>)

  /** A cleaned table with its title. */
  datatype TitledTable = TitledTable(title: Cell, table: Table)

  /** The row that supplies a block's title: the row above the marker, or
      row 0 itself when the marker is the first row. */
  function TitleRow(start: nat): nat {
    if start > 0 then start - 1 else 0
  }

  function RawTables(g: Sheet): (raw: seq<RawTable>)
    ensures |raw| == |Markers(g.rows)|
  {
    var h := Markers(g.rows);
    seq(|h|, i requires 0 <= i < |h| =>
      RawTable(At(g.rows[TitleRow(h[i])], 0), BlockRows(g.rows, i)))
  }

  /** The loop that fills `tables_raw`: one entry per marker, in order. */
  method SplitTables(g: Sheet) returns (tablesRaw: seq<RawTable>)
    ensures tablesRaw == RawTables(g)
  {
    var h := Markers(g.rows);
    tablesRaw := [];
    for i := 0 to |h|
      invariant tablesRaw == RawTables(g)[..i]
    {
      var titleIndex := if h[i] > 0 then h[i] - 1 else 0;
      SplitStep(g, i, tablesRaw);
      tablesRaw := tablesRaw + [RawTable(At(g.rows[titleIndex], 0), BlockRows(g.rows, i))];
    }
    assert RawTables(g)[..|h|] == RawTables(g);
  }

  /** One step of the splitting loop extends the raw tables built so far by
      the next marker's titled block. */
  lemma SplitStep(g: Sheet, i: nat, built: seq<RawTable>)
    requires i < |Markers(g.rows)| && built == RawTables(g)[..i]
    ensures var h := Markers(g.rows);
      TitleRow(h[i]) < |g.rows|
      && built + [RawTable(At(g.rows[TitleRow(h[i])], 0), BlockRows(g.rows, i))] == RawTables(g)[..i + 1]
  {
    var all := RawTables(g);
    assert all[..i + 1] == all[..i] + [all[i]];
  }

  /** When the first marker is row 0, the first title is that marker cell. */
  lemma FirstTitleIsMarker(g: Sheet)
    requires |Markers(g.rows)| > 0 && Markers(g.rows)[0] == 0
    ensures IsMarkerRow(g.rows[0]) && RawTables(g)[0].title == g.rows[0][0]
  {
    MarkersSpec(g.rows);
  }

  /** A marker below row 0 takes its title from the first cell of the row
      just above it. */
  lemma TitleAboveMarker(g: Sheet, i: nat)
    requires i < |Markers(g.rows)| && Markers(g.rows)[i] > 0
    ensures var h := Markers(g.rows);
      RawTables(g)[i].title == At(g.rows[h[i] - 1], 0)
  {
  }

  /** Only the first block can start at row 0; any later block's title is
      the first cell of the last row of the block before it. */
  lemma TitleFromPreviousBlock(g: Sheet, i: nat)
    requires 0 < i < |Markers(g.rows)|
    ensures var h, prev := Markers(g.rows), BlockRows(g.rows, i - 1);
      h[i] > 0 && |prev| > 0 && prev[|prev| - 1] == g.rows[h[i] - 1]
      && RawTables(g)[i].title == At(prev[|prev| - 1], 0)
  {
    var h := Markers(g.rows);
    PreviousBlockEndsAboveMarker(g.rows, i);
    TitleAboveMarker(g, i);
  }

  /** Block `i - 1` ends on the row just above marker `i`. */
  lemma PreviousBlockEndsAboveMarker(rows: seq<Row>, i: nat)
    requires 0 < i < |Markers(rows)|
    ensures var h, prev := Markers(rows), BlockRows(rows, i - 1);
      h[i] > 0 && |prev| > 0 && prev[|prev| - 1] == rows[h[i] - 1]
  {
    var h := Markers(rows);
    var n := |rows|;
    BlocksTile(h, n);
    var e := BlockEnd(h, i - 1, n);
    assert e == h[i] && h[i - 1] < e <= n;
    var prev := rows[h[i - 1]..e];
    assert BlockRows(rows, i - 1) == prev;
    assert prev[|prev| - 1] == rows[e - 1];
  }

  /** The row that titles table `i` is also the last row of table `i - 1`:
      when it holds any cell and the previous block has more than its marker
      row, it survives the cleaning of the previous block as its last body
      row, so the previous table shows it as a data row. */
  lemma TitleRowClosesPreviousTable(g: Sheet, i: nat)
    requires FitsWidth(g.rows, g.width)
    requires 0 < i < |Markers(g.rows)| && Markers(g.rows)[i - 1] + 1 < Markers(g.rows)[i]
    requires IsNonBlankRow(g.rows[Markers(g.rows)[i] - 1])
    ensures var prev := BlockRows(g.rows, i - 1);
      var t, cols := Clean(prev, g.width), UsedColumnsFrom(NonBlankRows(prev), g.width, 0);
      t.Some? && |t.value.body| > 0
      && t.value.body[|t.value.body| - 1] == Project(g.rows[Markers(g.rows)[i] - 1], cols)
  {
    var h := Markers(g.rows);
    PreviousBlockShape(g.rows, i);
    CleanEndsWithLastRow(BlockRows(g.rows, i - 1), g.rows[h[i] - 1], g.width);
  }

  /** When marker `i` sits more than one row below marker `i - 1`, block
      `i - 1` has at least two rows, opens with a row that holds a cell and
      ends on the row just above marker `i`. */
  lemma {:induction false} PreviousBlockShape(rows: seq<Row>, i: nat)
    requires 0 < i < |Markers(rows)| && Markers(rows)[i - 1] + 1 < Markers(rows)[i]
    ensures var prev := BlockRows(rows, i - 1);
      |prev| >= 2 && prev[0] == rows[Markers(rows)[i - 1]] && IsNonBlankRow(prev[0])
      && prev[|prev| - 1] == rows[Markers(rows)[i] - 1]
  {
    var h := Markers(rows);
    BlockSpan(rows, i - 1);
    PreviousBlockEndsAboveMarker(rows, i);
  }

  // ---------------------------------------------------------- clean_table

  predicate LabelIn(l: Option<string>, ls: seq<string>) {
    l.Some? && l.value in ls
  }

  /** A row with the cells under the labels `ls` coerced to numbers. */
  function CoerceRow(r: Row, header: seq<Option<string>>, ls: seq<string>, toNumber: string -> Option<int>): (p: Row)
    ensures |p| == |r|
  {
    seq(|r|, j requires 0 <= j < |r| =>
      if j < |header| && LabelIn(header[j], ls) then Num(Coerce(toNumber, r[j])) else r[j])
  }

  /** `df[col] = pd.to_numeric(df[col], errors='coerce').fillna(0)` for every
      label `col` of `ls`. */
  function CoerceLabels(t: Table, ls: seq<string>, toNumber: string -> Option<int>): Table {
    Table(t.header, seq(|t.body|, i requires 0 <= i < |t.body| => CoerceRow(t.body[i], t.header, ls, toNumber)))
  }

  /** `clean_table`'s result. */
  function CleanedTable(rows: seq<Row>, width: nat, toNumber: string -> Option<int>): Option<Table> {
    match Clean(rows, width)
    case None => None
    case Some(t) => Some(CoerceLabels(t, NumericLabels, toNumber))
  }

  /** `clean_table`: the shared cleaning, then the numeric columns. */
  method CleanTable(rows: seq<Row>, width: nat, toNumber: string -> Option<int>) returns (r: Option<Table>)
    ensures r == CleanedTable(rows, width, toNumber)
  {
    var c := Clean(rows, width);
    if c.None? {
      return None;
    }
    var df := CoerceNumericColumns(c.value, toNumber);
    return Some(df);
  }

  /** The loop of `clean_table`: one pass per numeric label that is present. */
  method CoerceNumericColumns(t: Table, toNumber: string -> Option<int>) returns (df: Table)
    ensures df == CoerceLabels(t, NumericLabels, toNumber)
  {
    df := t;
    CoerceNothing(t, toNumber);
    assert NumericLabels[..0] == [];
    for k := 0 to |NumericLabels|
      invariant df == CoerceLabels(t, NumericLabels[..k], toNumber)
    {
      var col := NumericLabels[k];
      if Some(col) in df.header {
        CoerceAgain(t, NumericLabels[..k], col, toNumber);
        df := CoerceLabels(df, [col], toNumber);
      } else {
        CoerceAbsent(t, NumericLabels[..k], col, toNumber);
      }
      assert NumericLabels[..k + 1] == NumericLabels[..k] + [col];
    }
    assert NumericLabels[..|NumericLabels|] == NumericLabels;
  }

  /** Coercing no label changes nothing. */
  lemma CoerceNothing(t: Table, toNumber: string -> Option<int>)
    ensures CoerceLabels(t, [], toNumber) == t
  {
    var a := CoerceLabels(t, [], toNumber);
    forall i | 0 <= i < |t.body|
      ensures a.body[i] == t.body[i]
    {
    }
  }

  /** Coercing one more label after others is coercing them all together. */
  lemma CoerceAgain(t: Table, ls: seq<string>, l: string, toNumber: string -> Option<int>)
    ensures CoerceLabels(CoerceLabels(t, ls, toNumber), [l], toNumber) == CoerceLabels(t, ls + [l], toNumber)
  {
    var a := CoerceLabels(CoerceLabels(t, ls, toNumber), [l], toNumber);
    var b := CoerceLabels(t, ls + [l], toNumber);
    forall i | 0 <= i < |t.body|
      ensures a.body[i] == b.body[i]
    {
      forall j | 0 <= j < |t.body[i]|
        ensures a.body[i][j] == b.body[i][j]
      {
        if j < |t.header| {
          assert LabelIn(t.header[j], ls + [l]) <==> LabelIn(t.header[j], ls) || LabelIn(t.header[j], [l]);
        }
      }
    }
  }

  /** A label that labels no column adds nothing to coerce. */
  lemma CoerceAbsent(t: Table, ls: seq<string>, l: string, toNumber: string -> Option<int>)
    requires Some(l) !in t.header
    ensures CoerceLabels(t, ls, toNumber) == CoerceLabels(t, ls + [l], toNumber)
  {
    var a := CoerceLabels(t, ls, toNumber);
    var b := CoerceLabels(t, ls + [l], toNumber);
    forall i | 0 <= i < |t.body|
      ensures a.body[i] == b.body[i]
    {
      forall j | 0 <= j < |t.body[i]|
        ensures a.body[i][j] == b.body[i][j]
      {
        if j < |t.header| {
          assert t.header[j] in t.header;
          assert LabelIn(t.header[j], ls + [l]) <==> LabelIn(t.header[j], ls);
        }
      }
    }
  }

  /** `clean_table` keeps the labels and the row count, turns every cell under
      HEDEF, SATIŞ, % or KALAN into a number (0 when it does not parse), and
      leaves every other cell as it was. */
  lemma CleanedTableCells(rows: seq<Row>, width: nat, toNumber: string -> Option<int>)
    requires Clean(rows, width).Some?
    ensures var t, u := Clean(rows, width).value, CleanedTable(rows, width, toNumber).value;
      u.header == t.header && |u.body| == |t.body|
      && forall i :: 0 <= i < |t.body| ==> |u.body[i]| == |t.body[i]|
    ensures var t, u := Clean(rows, width).value, CleanedTable(rows, width, toNumber).value;
      forall i, j :: 0 <= i < |t.body| && 0 <= j < |t.body[i]| && LabelIn(t.header[j], NumericLabels) ==>
        u.body[i][j] == Num(Coerce(toNumber, t.body[i][j]))
    ensures var t, u := Clean(rows, width).value, CleanedTable(rows, width, toNumber).value;
      forall i, j :: 0 <= i < |t.body| && 0 <= j < |t.body[i]| && !LabelIn(t.header[j], NumericLabels) ==>
        u.body[i][j] == t.body[i][j]
  {
  }

  /** The comprehension that cleans every raw table and drops those that
      clean to nothing. */
  function CleanAll(raw: seq<RawTable>, width: nat, toNumber: string -> Option<int>): (ts: seq<TitledTable>)
    ensures |ts| <= |raw|
  {
    if raw == [] then []
    else
      var rest := CleanAll(raw[1..], width, toNumber);
      match CleanedTable(raw[0].rows, width, toNumber)
      case None => rest
      case Some(t) => [TitledTable(raw[0].title, t)] + rest
  }

  /** Every cleaned table comes from a raw table with the same title, and a
      raw table is dropped only when it cleans to nothing. */
  lemma {:induction false} CleanAllMembers(raw: seq<RawTable>, width: nat, toNumber: string -> Option<int>, x: TitledTable)
    ensures x in CleanAll(raw, width, toNumber) <==>
      exists i :: 0 <= i < |raw| && raw[i].title == x.title && CleanedTable(raw[i].rows, width, toNumber) == Some(x.table)
    decreases |raw|
  {
    if raw != [] {
      CleanAllMembers(raw[1..], width, toNumber, x);
      if exists i :: 0 <= i < |raw| && raw[i].title == x.title && CleanedTable(raw[i].rows, width, toNumber) == Some(x.table) {
        var i :| 0 <= i < |raw| && raw[i].title == x.title && CleanedTable(raw[i].rows, width, toNumber) == Some(x.table);
        if i > 0 {
          assert raw[1..][i - 1] == raw[i];
        }
      }
      if exists i :: 0 <= i < |raw| - 1 && raw[1..][i].title == x.title && CleanedTable(raw[1..][i].rows, width, toNumber) == Some(x.table) {
        var i :| 0 <= i < |raw| - 1 && raw[1..][i].title == x.title && CleanedTable(raw[1..][i].rows, width, toNumber) == Some(x.table);
        assert raw[i + 1] == raw[1..][i];
      }
    }
  }

  // -------------------------------------------------------------- the totals

  /** The three grand totals shown above the tables. */
  datatype Totals = Totals(target: int, sales: int, remaining: int)

  function Add(a: Totals, b: Totals): Totals {
    Totals(a.target + b.target, a.sales + b.sales, a.remaining + b.remaining)
  }

  /** A coerced cell's amount (`sum` of a numeric column). */
  function Amount(c: Cell): int {
    if c.Num? then c.n else 0
  }

  function ColumnSum(rows: seq<Row>, j: nat): int {
    if rows == [] then 0 else Amount(At(rows[0], j)) + ColumnSum(rows[1..], j)
  }

  /** `table['Satış Temsilcisi'] == 'TOPLAM'`: exact equality, no trimming. */
  predicate IsNamedTotal(r: Row, m: nat) {
    At(r, m) == Text(TotalName)
  }

  function TotalRows(t: Table, m: nat): seq<Row> {
    Filter(t.body, (r: Row) => IsNamedTotal(r, m))
  }

  /** One table's contribution.  Selecting a column that is not there raises
      a `KeyError`, which ends the whole page: the name column is always
      selected, the three amount columns only when a TOPLAM row exists. */
  function TableTotals(t: Table): Outcome<Totals> {
    var m := LabelIndex(t.header, Marker);
    if m.None? then Fail(MissingColumn(Marker))
    else
      var total := TotalRows(t, m.value);
      var h := LabelIndex(t.header, TargetLabel);
      var s := LabelIndex(t.header, SalesLabel);
      var k := LabelIndex(t.header, RemainingLabel);
      if total == [] then Ok(Totals(0, 0, 0))
      else if h.None? then Fail(MissingColumn(TargetLabel))
      else if s.None? then Fail(MissingColumn(SalesLabel))
      else if k.None? then Fail(MissingColumn(RemainingLabel))
      else Ok(Totals(ColumnSum(total, h.value), ColumnSum(total, s.value), ColumnSum(total, k.value)))
  }

  /** Adding up contributions; the first failure wins. */
  function Plus(a: Outcome<Totals>, b: Outcome<Totals>): Outcome<Totals> {
    if a.Fail? then a else if b.Fail? then b else Ok(Add(a.value, b.value))
  }

  /** The contributions added left to right. */
  function SumAll(cs: seq<Outcome<Totals>>): Outcome<Totals> {
    if cs == [] then Ok(Totals(0, 0, 0))
    else Plus(SumAll(cs[..|cs| - 1]), cs[|cs| - 1])
  }

  function Contributions(ts: seq<TitledTable>): (cs: seq<Outcome<Totals>>)
    ensures |cs| == |ts|
  {
    seq(|ts|, i requires 0 <= i < |ts| => TableTotals(ts[i].table))
  }

  /** The grand totals over the cleaned tables, in order. */
  function GrandTotals(ts: seq<TitledTable>): Outcome<Totals> {
    SumAll(Contributions(ts))
  }

  /** The accumulation loop over the cleaned tables. */
  method SumTotals(cleanedTables: seq<TitledTable>) returns (out: Outcome<Totals>)
    ensures out == GrandTotals(cleanedTables)
  {
    ghost var cs := Contributions(cleanedTables);
    var toplamHedef, toplamSatis, toplamKalan := 0, 0, 0;
    for i := 0 to |cleanedTables|
      invariant SumAll(cs[..i]) == Ok(Totals(toplamHedef, toplamSatis, toplamKalan))
    {
      var contribution := TableTotals(cleanedTables[i].table);
      assert contribution == cs[i];
      SumAllStep(cs, i);
      if contribution.Fail? {
        SumAllStopsAt(cs, i);
        return contribution;
      }
      toplamHedef := toplamHedef + contribution.value.target;
      toplamSatis := toplamSatis + contribution.value.sales;
      toplamKalan := toplamKalan + contribution.value.remaining;
    }
    assert cs[..|cleanedTables|] == cs;
    return Ok(Totals(toplamHedef, toplamSatis, toplamKalan));
  }

  /** One more contribution is added on the right. */
  lemma SumAllStep(cs: seq<Outcome<Totals>>, i: nat)
    requires i < |cs|
    ensures SumAll(cs[..i + 1]) == Plus(SumAll(cs[..i]), cs[i])
  {
    assert cs[..i + 1][..i] == cs[..i];
  }

  /** The first failing contribution is the result of the whole sum. */
  lemma SumAllStopsAt(cs: seq<Outcome<Totals>>, i: nat)
    requires i < |cs| && cs[i].Fail? && SumAll(cs[..i]).Ok?
    ensures SumAll(cs) == cs[i]
  {
    SumAllStep(cs, i);
    SumAllSplit(cs[..i + 1], cs[i + 1..]);
    assert cs[..i + 1] + cs[i + 1..] == cs;
  }

  /** A zero contribution on the right changes nothing. */
  lemma SumAllAppendZero(cs: seq<Outcome<Totals>>, z: Outcome<Totals>)
    requires z == Ok(Totals(0, 0, 0))
    ensures SumAll(cs + [z]) == SumAll(cs)
  {
    assert (cs + [z])[..|cs|] == cs;
  }

  lemma PlusAssociative(a: Outcome<Totals>, b: Outcome<Totals>, c: Outcome<Totals>)
    ensures Plus(Plus(a, b), c) == Plus(a, Plus(b, c))
  {
  }

  /** Sums of two runs combine, and a failure in the first run wins. */
  lemma {:induction false} SumAllSplit(a: seq<Outcome<Totals>>, b: seq<Outcome<Totals>>)
    ensures SumAll(a + b) == Plus(SumAll(a), SumAll(b))
    decreases |b|
  {
    if b == [] {
      assert a + b == a;
    } else {
      var b0 := b[..|b| - 1];
      SumAllSplit(a, b0);
      PlusAssociative(SumAll(a), SumAll(b0), b[|b| - 1]);
      assert (a + b)[..|a + b| - 1] == a + b0;
      assert (a + b)[|a + b| - 1] == b[|b| - 1];
    }
  }

  /** A sum fails exactly when some contribution fails. */
  lemma {:induction false} SumAllFail(cs: seq<Outcome<Totals>>)
    ensures SumAll(cs).Fail? <==> exists i :: 0 <= i < |cs| && cs[i].Fail?
  {
    if cs != [] {
      var init := cs[..|cs| - 1];
      SumAllFail(init);
      if exists i :: 0 <= i < |init| && init[i].Fail? {
        var i :| 0 <= i < |init| && init[i].Fail?;
        assert cs[i] == init[i];
      }
      if exists i :: 0 <= i < |cs| && cs[i].Fail? {
        var i :| 0 <= i < |cs| && cs[i].Fail?;
        if i < |init| {
          assert init[i] == cs[i];
        }
      }
    }
  }

  /** The grand totals do not depend on how the tables are grouped: the
      totals of two runs of tables add up, and a failure in the first wins. */
  lemma GrandTotalsSplit(a: seq<TitledTable>, b: seq<TitledTable>)
    ensures GrandTotals(a + b) == Plus(GrandTotals(a), GrandTotals(b))
  {
    assert Contributions(a + b) == Contributions(a) + Contributions(b);
    SumAllSplit(Contributions(a), Contributions(b));
  }

  /** The grand totals fail exactly when some table's contribution fails. */
  lemma GrandTotalsFail(ts: seq<TitledTable>)
    ensures GrandTotals(ts).Fail? <==> exists i :: 0 <= i < |ts| && TableTotals(ts[i].table).Fail?
  {
    var cs := Contributions(ts);
    SumAllFail(cs);
    if exists i :: 0 <= i < |ts| && TableTotals(ts[i].table).Fail? {
      var i :| 0 <= i < |ts| && TableTotals(ts[i].table).Fail?;
      assert cs[i].Fail?;
    }
  }

  /** A table with the name column but without a row named exactly TOPLAM
      contributes 0, whatever its other columns. */
  lemma NoTotalRowContributesZero(t: Table)
    requires LabelIndex(t.header, Marker).Some?
    requires forall i :: 0 <= i < |t.body| ==> !IsNamedTotal(t.body[i], LabelIndex(t.header, Marker).value)
    ensures TableTotals(t) == Ok(Totals(0, 0, 0))
  {
    var m := LabelIndex(t.header, Marker).value;
    FilterNone(t.body, (r: Row) => IsNamedTotal(r, m));
  }

  /** Appending a table that contributes 0 leaves the grand totals alone. */
  lemma ZeroTableAddsNothing(ts: seq<TitledTable>, t: TitledTable)
    requires TableTotals(t.table) == Ok(Totals(0, 0, 0))
    ensures GrandTotals(ts + [t]) == GrandTotals(ts)
  {
    assert Contributions(ts + [t]) == Contributions(ts) + [TableTotals(t.table)];
    SumAllAppendZero(Contributions(ts), TableTotals(t.table));
  }

  // ------------------------------------------------------------- display

  /** `style_dataframe`'s row filter: every row not named exactly TOPLAM. */
  function DisplayRows(t: Table, m: nat): seq<Row> {
    Filter(t.body, (r: Row) => !IsNamedTotal(r, m))
  }

  /** Display and totals split the body: every row is either shown or is one
      of the rows the totals are taken from, never both. */
  lemma DisplaySplitsBody(t: Table, m: nat)
    ensures |DisplayRows(t, m)| + |TotalRows(t, m)| == |t.body|
    ensures forall r :: r in t.body ==> (r in DisplayRows(t, m) <==> r !in TotalRows(t, m))
  {
    FilterSplit(t.body, (r: Row) => IsNamedTotal(r, m), (r: Row) => !IsNamedTotal(r, m));
  }

  // ---------------------------------------------------------------- page

  /** What the page shows when it does not fail: the titled tables and the
      grand totals. */
  datatype PageView = PageView(tables: seq<TitledTable>, totals: Totals)

  function PageOf(g: Sheet, toNumber: string -> Option<int>): Outcome<PageView> {
    var ts := CleanAll(RawTables(g), g.width, toNumber);
    match GrandTotals(ts)
    case Fail(e) => Fail(e)
    case Ok(v) => Ok(PageView(ts, v))
  }

  /** `page_satis_hedef` inside its `try`: a sheet without columns fails at
      the marker scan; otherwise split, clean, total. */
  method SalesTargetPage(g: Sheet, toNumber: string -> Option<int>) returns (out: Outcome<PageView>)
    ensures g.width == 0 ==> out == Fail(NoFirstColumn)
    ensures g.width > 0 ==> out == PageOf(g, toNumber)
  {
    if g.width == 0 {
      return Fail(NoFirstColumn);
    }
    var tablesRaw := SplitTables(g);
    var cleanedTables := CleanAll(tablesRaw, g.width, toNumber);
    var totals := SumTotals(cleanedTables);
    if totals.Fail? {
      return Fail(totals.failure);
    }
    return Ok(PageView(cleanedTables, totals.value));
  }

  /** On the page every cleaned table has the name column first, so the
      totals never fail for want of it. */
  lemma PageNameColumn(g: Sheet, toNumber: string -> Option<int>, x: TitledTable)
    requires g.width > 0 && x in CleanAll(RawTables(g), g.width, toNumber)
    ensures LabelIndex(x.table.header, Marker) == Some(0)
  {
    var raw := RawTables(g);
    CleanAllMembers(raw, g.width, toNumber, x);
    var i :| 0 <= i < |raw| && raw[i].title == x.title && CleanedTable(raw[i].rows, g.width, toNumber) == Some(x.table);
    NameColumnIsFirst(g, i);
  }
}
