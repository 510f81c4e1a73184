/** The headerless sales/target grid and how it falls apart into tables:
    marker rows, the block of rows each marker opens, and the cleaning every
    block goes through (blank rows and blank columns dropped, first row
    promoted to trimmed column labels). */
module Sheets {
  import opened Base
  import opened Text

  /** A grid read without a header row: `width` columns, rows of cells. */
  datatype Sheet = Sheet(width: nat, rows: seq<Row>)

  /** The label of the column that holds the representatives' names; a row
      whose first cell trims to it opens a new table. */
  const Marker: string := "Sat\U{131}\U{15F} Temsilcisi"

  predicate IsMarkerRow(r: Row) {
    |r| > 0 && r[0].Text? && Strip(r[0].s) == Marker
  }

  predicate Increasing(h: seq<nat>) {
    forall k, l :: 0 <= k < l < |h| ==> h[k] < h[l]
  }

  /** The boolean mask `iloc[:, 0].astype(str).str.strip() == Marker`. */
  function MarkerMask(rows: seq<Row>): (m: seq<bool>)
    ensures |m| == |rows|
  {
    seq(|rows|, i requires 0 <= i < |rows| => IsMarkerRow(rows[i]))
  }

  /** Positions `>= i` where the mask is set, in order (`.index.tolist()`). */
  function TrueFrom(m: seq<bool>, i: nat): (h: seq<nat>)
    requires i <= |m|
    ensures Increasing(h)
    ensures forall k :: 0 <= k < |h| ==> i <= h[k] < |m| && m[h[k]]
    decreases |m| - i
  {
    if i == |m| then []
    else if m[i] then [i] + TrueFrom(m, i + 1)
    else TrueFrom(m, i + 1)
  }

  /** Every set position at or after `i` is listed. */
  lemma {:induction false} TrueFromComplete(m: seq<bool>, i: nat, j: nat)
    requires i <= j < |m| && m[j]
    ensures j in TrueFrom(m, i)
    decreases j - i
  {
    if i < j {
      TrueFromComplete(m, i + 1, j);
    }
  }

  /** The row numbers of all marker rows. */
  function Markers(rows: seq<Row>): seq<nat> {
    TrueFrom(MarkerMask(rows), 0)
  }

  /** `Markers` lists exactly the marker rows, in increasing order. */
  lemma MarkersSpec(rows: seq<Row>)
    ensures Increasing(Markers(rows))
    ensures forall k :: 0 <= k < |Markers(rows)| ==>
      Markers(rows)[k] < |rows| && IsMarkerRow(rows[Markers(rows)[k]])
    ensures forall j :: 0 <= j < |rows| ==> (IsMarkerRow(rows[j]) <==> j in Markers(rows))
  {
    var m := MarkerMask(rows);
    forall j | 0 <= j < |rows| && IsMarkerRow(rows[j])
      ensures j in Markers(rows)
    {
      TrueFromComplete(m, 0, j);
    }
  }

  /** One past the last row of block `i`: the next marker, or the end. */
  function BlockEnd(h: seq<nat>, i: nat, n: nat): nat
    requires i < |h|
  {
    if i + 1 < |h| then h[i + 1] else n
  }

  /** The rows of block `i`, marker row first. */
  function BlockRows(rows: seq<Row>, i: nat): seq<Row>
    requires i < |Markers(rows)|
  {
    var h := Markers(rows);
    BlocksTile(h, |rows|);
    rows[h[i]..BlockEnd(h, i, |rows|)]
  }

  /** Blocks are non-empty, follow one another without gaps, the last one
      runs to the end of the grid, and only the first row of a block is a
      marker row.  A grid without marker rows has no blocks. */
  lemma BlockPartition(rows: seq<Row>)
    ensures var h := Markers(rows);
      forall i :: 0 <= i < |h| ==> h[i] < BlockEnd(h, i, |rows|) <= |rows|
    ensures var h := Markers(rows);
      forall i :: 0 <= i < |h| - 1 ==> BlockEnd(h, i, |rows|) == h[i + 1]
    ensures var h := Markers(rows);
      |h| > 0 ==> BlockEnd(h, |h| - 1, |rows|) == |rows|
    ensures var h := Markers(rows);
      forall i, k :: 0 <= i < |h| && h[i] < k < BlockEnd(h, i, |rows|) ==> !IsMarkerRow(rows[k])
    ensures |Markers(rows)| == 0 <==> forall k :: 0 <= k < |rows| ==> !IsMarkerRow(rows[k])
  {
    var m := MarkerMask(rows);
    var h := Markers(rows);
    BlocksTile(h, |rows|);
    forall i, k | 0 <= i < |h| && h[i] < k < BlockEnd(h, i, |rows|)
      ensures !IsMarkerRow(rows[k])
    {
      BlockInteriorUnset(m, i, k);
      assert m[k] == IsMarkerRow(rows[k]);
    }
    if |h| == 0 {
      forall k | 0 <= k < |rows|
        ensures !IsMarkerRow(rows[k])
      {
        assert m[k] == IsMarkerRow(rows[k]);
        if m[k] {
          TrueFromComplete(m, 0, k);
        }
      }
    }
  }

  /** Increasing cut points below `n` tile `[h[0], n)` with non-empty blocks. */
  lemma BlocksTile(h: seq<nat>, n: nat)
    requires Increasing(h) && forall k :: 0 <= k < |h| ==> h[k] < n
    ensures forall i :: 0 <= i < |h| ==> h[i] < BlockEnd(h, i, n) <= n
    ensures forall i :: 0 <= i < |h| - 1 ==> BlockEnd(h, i, n) == h[i + 1]
    ensures |h| > 0 ==> BlockEnd(h, |h| - 1, n) == n
  {
  }

  /** Between two consecutive set positions of a mask no position is set. */
  lemma BlockInteriorUnset(m: seq<bool>, i: nat, k: nat)
    requires var h := TrueFrom(m, 0); i < |h| && h[i] < k < BlockEnd(h, i, |m|)
    ensures !m[k]
  {
    var h := TrueFrom(m, 0);
    if m[k] {
      TrueFromComplete(m, 0, k);
    }
  }

  /** Every row from the first marker on lies in some block. */
  lemma BlocksCover(rows: seq<Row>, k: nat)
    requires var h := Markers(rows); |h| > 0 && h[0] <= k < |rows|
    ensures var h := Markers(rows);
      exists i :: 0 <= i < |h| && h[i] <= k < BlockEnd(h, i, |rows|)
  {
    var h := Markers(rows);
    var i := BlockOf(h, |rows|, k);
  }

  /** The block that holds row `k`, found by walking the markers. */
  lemma {:induction false} BlockOf(h: seq<nat>, n: nat, k: nat) returns (i: nat)
    requires |h| > 0 && Increasing(h) && h[0] <= k < n
    ensures i < |h| && h[i] <= k < BlockEnd(h, i, n)
    decreases |h|
  {
    if |h| == 1 || k < h[1] {
      i := 0;
    } else {
      var t := h[1..];
      var j := BlockOf(t, n, k);
      assert BlockEnd(t, j, n) == BlockEnd(h, j + 1, n);
      i := j + 1;
    }
  }

  /** No row lies in two blocks. */
  lemma BlocksDisjoint(rows: seq<Row>, i: nat, j: nat, k: nat)
    requires var h := Markers(rows);
      i < |h| && j < |h| && h[i] <= k < BlockEnd(h, i, |rows|) && h[j] <= k < BlockEnd(h, j, |rows|)
    ensures i == j
  {
    CutsDisjoint(Markers(rows), |rows|, i, j, k);
  }

  lemma CutsDisjoint(h: seq<nat>, n: nat, i: nat, j: nat, k: nat)
    requires Increasing(h)
    requires i < |h| && j < |h| && h[i] <= k < BlockEnd(h, i, n) && h[j] <= k < BlockEnd(h, j, n)
    ensures i == j
  {
  }

  // ---------------------------------------------------------------- cleaning

  /** A row of missing cells only (`dropna(axis=0, how='all')` drops it). */
  predicate IsBlankRow(r: Row) {
    forall j :: 0 <= j < |r| ==> r[j] == Blank
  }

  predicate IsNonBlankRow(r: Row) {
    !IsBlankRow(r)
  }

  /** Column `c` holds a non-missing cell in some row. */
  predicate ColumnUsed(rows: seq<Row>, c: nat) {
    exists i :: 0 <= i < |rows| && At(rows[i], c) != Blank
  }

  /** The columns `j <= c < width` that are not entirely missing, in order
      (`dropna(axis=1, how='all')`). */
  function UsedColumnsFrom(rows: seq<Row>, width: nat, j: nat): (cols: seq<nat>)
    requires j <= width
    ensures Increasing(cols)
    ensures forall k :: 0 <= k < |cols| ==> j <= cols[k] < width
    ensures forall c :: c in cols <==> j <= c < width && ColumnUsed(rows, c)
    decreases width - j
  {
    if j == width then []
    else if ColumnUsed(rows, j) then [j] + UsedColumnsFrom(rows, width, j + 1)
    else UsedColumnsFrom(rows, width, j + 1)
  }

  /** Row `r` restricted to the columns `cols`. */
  function Project(r: Row, cols: seq<nat>): (p: Row)
    ensures |p| == |cols|
  {
    seq(|cols|, k requires 0 <= k < |cols| => At(r, cols[k]))
  }

  function ProjectAll(rows: seq<Row>, cols: seq<nat>): (g: seq<Row>)
    ensures |g| == |rows|
  {
    seq(|rows|, i requires 0 <= i < |rows| => Project(rows[i], cols))
  }

  /** A column label after `columns.str.strip()`: text is trimmed, anything
      else has no string label. */
  function Label(c: Cell): Option<string> {
    if c.Text? then Some(Strip(c.s)) else None
  }

  /** A cleaned table: trimmed column labels and the rows under them. */
  datatype Table = Table(header: seq<Option<string>>, body: seq<Row>)

  function NonBlankRows(block: seq<Row>): seq<Row> {
    Filter(block, IsNonBlankRow)
  }

  /** The cleaning shared by the parser and the page: drop blank rows, drop
      blank columns, give up on an empty frame or one with fewer than two
      rows, promote the first row to column labels. */
  function Clean(block: seq<Row>, width: nat): (r: Option<Table>)
    ensures r.None? <==> |NonBlankRows(block)| < 2 || UsedColumnsFrom(NonBlankRows(block), width, 0) == []
    ensures r.Some? ==> |r.value.body| == |NonBlankRows(block)| - 1
    ensures r.Some? ==> forall i :: 0 <= i < |r.value.body| ==> |r.value.body[i]| == |r.value.header|
  {
    var kept := NonBlankRows(block);
    var cols := UsedColumnsFrom(kept, width, 0);
    var grid := ProjectAll(kept, cols);
    if cols == [] || |grid| < 2 then None
    else Some(Table(seq(|cols|, k requires 0 <= k < |cols| => Label(grid[0][k])), grid[1..]))
  }

  /** Every row of `rows` has at most `width` cells (a data frame is rectangular). */
  predicate FitsWidth(rows: seq<Row>, width: nat) {
    forall i :: 0 <= i < |rows| ==> |rows[i]| <= width
  }

  /** On rows that fit the width, a block is skipped exactly when fewer than
      two of its rows are non-blank. */
  lemma CleanSkipsShort(block: seq<Row>, width: nat)
    requires FitsWidth(block, width)
    ensures Clean(block, width).None? <==> |NonBlankRows(block)| < 2
  {
    var kept := NonBlankRows(block);
    if |kept| >= 1 {
      var r := kept[0];
      assert r in kept && r in block && IsNonBlankRow(r);
      var j :| 0 <= j < |r| && r[j] != Blank;
      assert At(kept[0], j) != Blank;
      assert j < width;
      assert j in UsedColumnsFrom(kept, width, 0);
    }
  }



  /** Block `i` is the slice from its marker row to the next marker (or the
      end of the sheet), and its marker row holds a cell. */
  lemma BlockSpan(rows: seq<Row>, i: nat)
    requires i < |Markers(rows)|
    ensures var h := Markers(rows);
      h[i] < BlockEnd(h, i, |rows|) <= |rows|
      && (i + 1 < |h| ==> BlockEnd(h, i, |rows|) == h[i + 1])
      && BlockRows(rows, i) == rows[h[i]..BlockEnd(h, i, |rows|)]
      && IsNonBlankRow(rows[h[i]])
  {
    var h := Markers(rows);
    MarkersSpec(rows);
    BlocksTile(h, |rows|);
    MarkerRowNonBlank(rows[h[i]]);
  }

  /** A marker row holds a cell. */
  lemma MarkerRowNonBlank(r: Row)
    requires IsMarkerRow(r)
    ensures IsNonBlankRow(r)
  {
    assert r[0] != Blank;
  }

  /** The rows of every block of a rectangular sheet fit its width. */
  lemma BlockFitsWidth(g: Sheet, i: nat)
    requires FitsWidth(g.rows, g.width) && i < |Markers(g.rows)|
    ensures FitsWidth(BlockRows(g.rows, i), g.width)
  {
    var h := Markers(g.rows);
    BlocksTile(h, |g.rows|);
    var b := BlockRows(g.rows, i);
    forall k | 0 <= k < |b|
      ensures |b[k]| <= g.width
    {
      assert b[k] == g.rows[h[i] + k];
    }
  }

  /** After cleaning no row is blank and no column is blank: each column has
      a non-missing cell in the header row or in the body. */
  lemma CleanLeavesNoBlanks(block: seq<Row>, width: nat)
    requires FitsWidth(block, width)
    requires Clean(block, width).Some?
    ensures var t := Clean(block, width).value;
      forall i :: 0 <= i < |t.body| ==> IsNonBlankRow(t.body[i])
    ensures var t := Clean(block, width).value; var kept := NonBlankRows(block);
      forall k :: 0 <= k < |t.header| ==>
        At(kept[0], UsedColumnsFrom(kept, width, 0)[k]) != Blank
        || exists i :: 0 <= i < |t.body| && t.body[i][k] != Blank
  {
    var kept := NonBlankRows(block);
    var cols := UsedColumnsFrom(kept, width, 0);
    var grid := ProjectAll(kept, cols);
    var t := Clean(block, width).value;
    forall i | 0 <= i < |t.body|
      ensures IsNonBlankRow(t.body[i])
    {
      var r := kept[i + 1];
      assert r in kept && r in block && IsNonBlankRow(r);
      var j :| 0 <= j < |r| && r[j] != Blank;
      assert j < width;
      assert ColumnUsed(kept, j) by {
        assert At(kept[i + 1], j) != Blank;
      }
      assert j in cols;
      var k :| 0 <= k < |cols| && cols[k] == j;
      assert t.body[i] == grid[i + 1] == Project(r, cols);
      assert t.body[i][k] == r[j];
    }
    forall k | 0 <= k < |t.header|
      ensures At(kept[0], cols[k]) != Blank || exists i :: 0 <= i < |t.body| && t.body[i][k] != Blank
    {
      assert cols[k] in cols;
      var m :| 0 <= m < |kept| && At(kept[m], cols[k]) != Blank;
      if m > 0 {
        assert t.body[m - 1] == Project(kept[m], cols);
        assert t.body[m - 1][k] != Blank;
      }
    }
  }

  /** The marker row opens every block and survives cleaning, so the first
      column of a cleaned table is labelled with the marker and holds each
      row's original first cell. */
  lemma CleanKeepsMarkerColumn(block: seq<Row>, width: nat)
    requires |block| > 0 && IsMarkerRow(block[0]) && width > 0
    requires Clean(block, width).Some?
    ensures var t := Clean(block, width).value;
      |t.header| > 0 && t.header[0] == Some(Marker)
    ensures var t := Clean(block, width).value; var kept := NonBlankRows(block);
      forall i :: 0 <= i < |t.body| ==> t.body[i][0] == At(kept[i + 1], 0)
  {
    var kept := NonBlankRows(block);
    assert IsNonBlankRow(block[0]) by {
      assert block[0][0] != Blank;
    }
    assert kept[0] == block[0];
    var cols := UsedColumnsFrom(kept, width, 0);
    assert ColumnUsed(kept, 0) by {
      assert At(kept[0], 0) != Blank;
    }
    assert 0 in cols;
    assert cols[0] == 0;
    var t := Clean(block, width).value;
    assert t.header[0] == Label(Project(kept[0], cols)[0]);
  }

  /** When a block opens with a row that holds a cell and fits the width,
      and ends with a row `last` that holds a cell too, `last` survives the blank-row drop and
      becomes the last body row of the cleaned table. */
  lemma CleanEndsWithLastRow(block: seq<Row>, last: Row, width: nat)
    requires |block| >= 2 && |block[0]| <= width
    requires IsNonBlankRow(block[0]) && block[|block| - 1] == last && IsNonBlankRow(last)
    ensures Clean(block, width).Some?
    ensures var t, cols := Clean(block, width).value, UsedColumnsFrom(NonBlankRows(block), width, 0);
      |t.body| > 0 && t.body[|t.body| - 1] == Project(last, cols)
  {
    var rest := block[1..];
    assert rest[|rest| - 1] == last;
    FilterKeepsLast(rest, IsNonBlankRow);
    var kept := NonBlankRows(block);
    assert kept == [block[0]] + Filter(rest, IsNonBlankRow);
    assert |kept| >= 2 && kept[0] == block[0] && kept[|kept| - 1] == last;
    var j :| 0 <= j < |block[0]| && block[0][j] != Blank;
    assert At(kept[0], j) != Blank;
    assert j in UsedColumnsFrom(kept, width, 0);
  }

}
