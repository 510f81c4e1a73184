/** `parse_satis_hedef_df`: every table of the sales/target sheet that has
    both a representative column and a sales column contributes one record
    per representative row, keyed by the normalised name. */
module SalesTargets {
  import opened Base
  import opened Text
  import opened Names
  import opened Sheets

  /** The sales column's label, and the name of the summary row. */
  const SalesLabel: string := "SATI\U{15E}"
  const TotalName: string := "TOPLAM"

  /** One row of the parsed frame: the normalised name (the frame's index)
      and the coerced sales amount. */
  datatype SalesRecord = SalesRecord(key: string, sales: int)

  /** The first column at or after `j` labelled `name`. */
  function LabelIndexFrom(header: seq<Option<string>>, name: string, j: nat): (r: Option<nat>)
    requires j <= |header|
    ensures r.Some? ==> j <= r.value < |header| && header[r.value] == Some(name)
    ensures r.Some? ==> forall k :: j <= k < r.value ==> header[k] != Some(name)
    ensures r.None? ==> forall k :: j <= k < |header| ==> header[k] != Some(name)
    decreases |header| - j
  {
    if j == |header| then None
    else if header[j] == Some(name) then Some(j)
    else LabelIndexFrom(header, name, j + 1)
  }

  /** The column that `table[name]` selects, if the label is present. */
  function LabelIndex(header: seq<Option<string>>, name: string): Option<nat> {
    LabelIndexFrom(header, name, 0)
  }

  /** `table['Satış Temsilcisi'].str.strip() == 'TOPLAM'`: a cell that is not
      text never matches. */
  predicate IsTotalRow(r: Row, m: nat) {
    At(r, m).Text? && Strip(At(r, m).s) == TotalName
  }

  /** The record a representative row contributes. */
  function RecordOf(r: Row, m: nat, c: nat, toNumber: string -> Option<int>): SalesRecord {
    SalesRecord(NormalizeCell(At(r, m)), Coerce(toNumber, At(r, c)))
  }

  /** The mask `!= 'TOPLAM'` on the name column `m`. */
  function NotTotal(m: nat): Row -> bool {
    (r: Row) => !IsTotalRow(r, m)
  }

  /** The rows of a table that are not its total row. */
  function RepRows(t: Table, m: nat): seq<Row> {
    Filter(t.body, NotTotal(m))
  }

  /** What one cleaned table contributes: nothing without the two columns;
      otherwise one record per non-total row, in row order. */
  function TableRecords(t: Table, toNumber: string -> Option<int>): (out: seq<SalesRecord>)
    ensures LabelIndex(t.header, Marker).None? || LabelIndex(t.header, SalesLabel).None? ==> out == []
  {
    var m := LabelIndex(t.header, Marker);
    var c := LabelIndex(t.header, SalesLabel);
    if m.None? || c.None? then []
    else
      var reps := RepRows(t, m.value);
      seq(|reps|, i requires 0 <= i < |reps| => RecordOf(reps[i], m.value, c.value, toNumber))
  }

  /** Each record of a table comes from one of its non-total rows, with the
      normalised name and the coerced sales cell; and every non-total row
      gives its record. */
  lemma TableRecordsExact(t: Table, toNumber: string -> Option<int>)
    requires LabelIndex(t.header, Marker).Some? && LabelIndex(t.header, SalesLabel).Some?
    ensures var m, c := LabelIndex(t.header, Marker).value, LabelIndex(t.header, SalesLabel).value;
      forall x :: x in TableRecords(t, toNumber) <==>
        exists r :: r in t.body && !IsTotalRow(r, m) && x == RecordOf(r, m, c, toNumber)
  {
    var m, c := LabelIndex(t.header, Marker).value, LabelIndex(t.header, SalesLabel).value;
    var reps := RepRows(t, m);
    var out := TableRecords(t, toNumber);
    forall x | x in out
      ensures exists r :: r in t.body && !IsTotalRow(r, m) && x == RecordOf(r, m, c, toNumber)
    {
      var i :| 0 <= i < |out| && out[i] == x;
      assert reps[i] in reps;
    }
    forall r | r in t.body && !IsTotalRow(r, m)
      ensures RecordOf(r, m, c, toNumber) in out
    {
      assert r in reps;
      var i :| 0 <= i < |reps| && reps[i] == r;
      assert out[i] == RecordOf(r, m, c, toNumber);
    }
  }

  /** The records of a table follow its non-total rows one for one and in
      row order: record k comes from body row idx[k], the positions idx are
      increasing, and they are exactly the rows not named TOPLAM. */
  lemma TableRecordsInOrder(t: Table, toNumber: string -> Option<int>)
    requires LabelIndex(t.header, Marker).Some? && LabelIndex(t.header, SalesLabel).Some?
    ensures var m, c := LabelIndex(t.header, Marker).value, LabelIndex(t.header, SalesLabel).value;
      var idx, out := IndicesFrom(t.body, NotTotal(m), 0), TableRecords(t, toNumber);
      |out| == |idx|
      && (forall k, l :: 0 <= k < l < |idx| ==> idx[k] < idx[l])
      && (forall j :: 0 <= j < |t.body| ==> (j in idx <==> !IsTotalRow(t.body[j], m)))
      && forall k :: 0 <= k < |idx| ==> idx[k] < |t.body| && out[k] == RecordOf(t.body[idx[k]], m, c, toNumber)
  {
    var m, c := LabelIndex(t.header, Marker).value, LabelIndex(t.header, SalesLabel).value;
    var idx := IndicesFrom(t.body, NotTotal(m), 0);
    FilterPicks(t.body, NotTotal(m), 0);
    assert t.body[0..] == t.body;
    forall j | 0 <= j < |t.body| && !IsTotalRow(t.body[j], m)
      ensures j in idx
    {
      IndicesComplete(t.body, NotTotal(m), 0, j);
    }
  }

  /** Every key produced is a normal key. */
  lemma TableRecordsValues(t: Table, toNumber: string -> Option<int>)
    ensures forall x :: x in TableRecords(t, toNumber) ==> IsNormalKey(x.key)
  {
    forall x | x in TableRecords(t, toNumber)
      ensures IsNormalKey(x.key)
    {
      var m, c := LabelIndex(t.header, Marker).value, LabelIndex(t.header, SalesLabel).value;
      TableRecordsExact(t, toNumber);
      var r :| r in t.body && !IsTotalRow(r, m) && x == RecordOf(r, m, c, toNumber);
      NormalizeCellIsNormal(At(r, m));
    }
  }

  lemma NormalizeCellIsNormal(c: Cell)
    ensures IsNormalKey(NormalizeCell(c))
  {
    match c
    case Blank => NormalizeSpec(None);
    case Text(s) => NormalizeSpec(Some(s));
    case Num(n) => NormalizeSpec(Some(IntToString(n)));
  }

  // ------------------------------------------------------------- whole sheet

  /** What block `i` contributes: nothing when it cleans to too few rows. */
  function BlockRecords(g: Sheet, i: nat, toNumber: string -> Option<int>): seq<SalesRecord>
    requires i < |Markers(g.rows)|
  {
    match Clean(BlockRows(g.rows, i), g.width)
    case None => []
    case Some(t) => TableRecords(t, toNumber)
  }

  /** In a rectangular sheet, a block that keeps fewer than two non-blank
      rows is skipped without error and adds no record. */
  lemma ShortBlockAddsNothing(g: Sheet, i: nat, toNumber: string -> Option<int>)
    requires FitsWidth(g.rows, g.width) && i < |Markers(g.rows)|
    requires |NonBlankRows(BlockRows(g.rows, i))| < 2
    ensures BlockRecords(g, i, toNumber) == []
  {
    BlockFitsWidth(g, i);
    CleanSkipsShort(BlockRows(g.rows, i), g.width);
  }

  /** What every block contributes, in block order. */
  function BlockOutputs(g: Sheet, toNumber: string -> Option<int>): (outs: seq<seq<SalesRecord>>)
    ensures |outs| == |Markers(g.rows)|
  {
    seq(|Markers(g.rows)|, i requires 0 <= i < |Markers(g.rows)| => BlockRecords(g, i, toNumber))
  }

  /** `pd.concat(cleaned_tables, ignore_index=True)`. */
  function Concat<T>(ss: seq<seq<T>>): seq<T> {
    if ss == [] then [] else Concat(ss[..|ss| - 1]) + ss[|ss| - 1]
  }

  /** The parsed frame of a sheet with at least one column. */
  function Parsed(g: Sheet, toNumber: string -> Option<int>): seq<SalesRecord> {
    Concat(BlockOutputs(g, toNumber))
  }

  /** `parse_satis_hedef_df`: a sheet without columns has no first column to
      scan and fails; otherwise the blocks are cleaned and their records
      appended, in order. */
  method ParseSalesTargets(g: Sheet, toNumber: string -> Option<int>) returns (out: Outcome<seq<SalesRecord>>)
    ensures g.width == 0 <==> out == Fail(NoFirstColumn)
    ensures g.width > 0 ==> out == Ok(Parsed(g, toNumber))
  {
    if g.width == 0 {
      return Fail(NoFirstColumn);
    }
    var h := Markers(g.rows);
    ghost var outs := BlockOutputs(g, toNumber);
    var cleanedTables: seq<SalesRecord> := [];
    for i := 0 to |h|
      invariant cleanedTables == Concat(outs[..i])
    {
      cleanedTables := cleanedTables + BlockRecords(g, i, toNumber);
      assert cleanedTables == Concat(outs[..i]) + outs[i];
      assert outs[..i + 1][..i] == outs[..i];
    }
    assert outs[..|h|] == outs;
    return Ok(cleanedTables);
  }

  /** An element is in the concatenation exactly when it is in one part. */
  lemma {:induction false} ConcatMembers<T>(ss: seq<seq<T>>, x: T)
    ensures x in Concat(ss) <==> exists i :: 0 <= i < |ss| && x in ss[i]
  {
    if ss != [] {
      var init := ss[..|ss| - 1];
      ConcatMembers(init, x);
      if x in Concat(init) {
        var i :| 0 <= i < |init| && x in init[i];
        assert x in ss[i];
      }
      if exists i :: 0 <= i < |ss| && x in ss[i] {
        var i :| 0 <= i < |ss| && x in ss[i];
        if i < |ss| - 1 {
          assert x in init[i];
        }
      }
    }
  }

  /** Parts are appended in order: the parts `ss[..j]` give a prefix. */
  lemma {:induction false} ConcatInOrder<T>(ss: seq<seq<T>>, j: nat)
    requires j <= |ss|
    ensures Concat(ss[..j]) <= Concat(ss)
    decreases |ss| - j
  {
    if j < |ss| {
      var init := ss[..|ss| - 1];
      assert init[..j] == ss[..j];
      ConcatInOrder(init, j);
    } else {
      assert ss[..j] == ss;
    }
  }

  /** Empty parts concatenate to nothing. */
  lemma {:induction false} ConcatOfEmpties<T>(ss: seq<seq<T>>)
    requires forall i :: 0 <= i < |ss| ==> ss[i] == []
    ensures Concat(ss) == []
  {
    if ss != [] {
      ConcatOfEmpties(ss[..|ss| - 1]);
    }
  }

  /** A record is in the output exactly when one of the blocks produced it. */
  lemma RecordsFromBlocks(g: Sheet, toNumber: string -> Option<int>, x: SalesRecord)
    ensures var outs := BlockOutputs(g, toNumber);
      x in Parsed(g, toNumber) <==> exists i :: 0 <= i < |outs| && x in outs[i]
  {
    ConcatMembers(BlockOutputs(g, toNumber), x);
  }

  /** Blocks are appended in sheet order: the records of the first `j`
      blocks come first. */
  lemma RecordsInBlockOrder(g: Sheet, j: nat, toNumber: string -> Option<int>)
    requires j <= |Markers(g.rows)|
    ensures Concat(BlockOutputs(g, toNumber)[..j]) <= Parsed(g, toNumber)
  {
    ConcatInOrder(BlockOutputs(g, toNumber), j);
  }

  /** A sheet in which no block yields a qualifying table parses to nothing;
      in particular one without marker rows. */
  lemma NoTablesNoRecords(g: Sheet, toNumber: string -> Option<int>)
    requires forall i :: 0 <= i < |Markers(g.rows)| ==> BlockRecords(g, i, toNumber) == []
    ensures Parsed(g, toNumber) == []
  {
    ConcatOfEmpties(BlockOutputs(g, toNumber));
  }

  /** Every key of the parsed frame is a normal key. */
  lemma ParsedKeysNormal(g: Sheet, toNumber: string -> Option<int>)
    ensures forall x :: x in Parsed(g, toNumber) ==> IsNormalKey(x.key)
  {
    var n := |Markers(g.rows)|;
    forall x | x in Parsed(g, toNumber)
      ensures IsNormalKey(x.key)
    {
      RecordsFromBlocks(g, toNumber, x);
      var outs := BlockOutputs(g, toNumber);
      var i :| 0 <= i < n && x in outs[i];
      assert x in BlockRecords(g, i, toNumber);
      var t := Clean(BlockRows(g.rows, i), g.width);
      TableRecordsValues(t.value, toNumber);
    }
  }

  /** The representative column of every cleaned block is its first column,
      so the source's test of that label always succeeds. */
  lemma NameColumnIsFirst(g: Sheet, i: nat)
    requires g.width > 0 && i < |Markers(g.rows)|
    requires Clean(BlockRows(g.rows, i), g.width).Some?
    ensures LabelIndex(Clean(BlockRows(g.rows, i), g.width).value.header, Marker) == Some(0)
  {
    MarkersSpec(g.rows);
    var block := BlockRows(g.rows, i);
    assert block[0] == g.rows[Markers(g.rows)[i]];
    CleanKeepsMarkerColumn(block, g.width);
  }

  // ------------------------------------------------------------ the lookup

  /** The records filed under the key `key`. */
  function Matching(records: seq<SalesRecord>, key: string): seq<SalesRecord> {
    Filter(records, (x: SalesRecord) => x.key == key)
  }

  /** The sales figure shown for a representative of the ledger: 0 when the
      normalised name is not in the index, the single value when it is there
      once; a name filed several times yields several rows, which the
      figure's formatting does not accept (`None`). */
  function RepresentativeSales(records: seq<SalesRecord>, rep: string): Option<int> {
    var hits := Matching(records, Normalize(Some(rep)));
    if |hits| == 0 then Some(0)
    else if |hits| == 1 then Some(hits[0].sales)
    else None
  }

  /** When the representative's key is filed exactly once, the figure is that
      record's sales. */
  lemma RepresentativeSalesFound(records: seq<SalesRecord>, rep: string, j: nat)
    requires j < |records| && records[j].key == Normalize(Some(rep))
    requires forall k :: 0 <= k < |records| && k != j ==> records[k].key != Normalize(Some(rep))
    ensures RepresentativeSales(records, rep) == Some(records[j].sales)
  {
    var key := Normalize(Some(rep));
    MatchingSingle(records, key, j);
  }

  /** A representative whose key is not filed gets 0. */
  lemma RepresentativeSalesMissing(records: seq<SalesRecord>, rep: string)
    requires forall k :: 0 <= k < |records| ==> records[k].key != Normalize(Some(rep))
    ensures RepresentativeSales(records, rep) == Some(0)
  {
    MatchingNone(records, Normalize(Some(rep)));
  }

  lemma {:induction false} MatchingSingle(records: seq<SalesRecord>, key: string, j: nat)
    requires j < |records| && records[j].key == key
    requires forall k :: 0 <= k < |records| && k != j ==> records[k].key != key
    ensures Matching(records, key) == [records[j]]
    decreases |records|
  {
    if j == 0 {
      MatchingNone(records[1..], key);
    } else {
      MatchingSingle(records[1..], key, j - 1);
    }
  }

  lemma {:induction false} MatchingNone(records: seq<SalesRecord>, key: string)
    requires forall k :: 0 <= k < |records| ==> records[k].key != key
    ensures Matching(records, key) == []
    decreases |records|
  {
    if records != [] {
      MatchingNone(records[1..], key);
    }
  }
}
