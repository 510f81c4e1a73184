/** The sales ledger as the dashboard loads it, and the overdue-receivable
    buckets computed from it: overall, per representative, and on the aging
    page. */
module Aging {
  import opened Base
  import opened Names

  // ---------------------------------------------------------------- loading

  /** A ledger row as read from the sheet: the representative (ST), the
      customer, the days-overdue cell (Gün) and the open balance. */
  datatype LedgerCells = LedgerCells(st: Cell, customer: Cell, days: Cell, balance: Option<int>)

  /** A loaded ledger row: the representative's name as text, its join key,
      the customer, the days overdue if numeric, and the balance if present. */
  datatype LedgerRow = LedgerRow(rep: string, key: string, customer: string, days: Option<int>, balance: Option<int>)

  /** `astype(str)`: a missing cell becomes the text "nan". */
  function PyStr(c: Cell): string {
    match c
    case Blank => "nan"
    case Text(s) => s
    case Num(n) => IntToString(n)
  }

  /** `pd.to_numeric(errors='coerce')` without a default: unparseable or
      missing days stay missing. */
  function ParseDays(toNumber: string -> Option<int>, c: Cell): Option<int> {
    match c
    case Num(n) => Some(n)
    case Text(s) => toNumber(s)
    case Blank => None
  }

  function LoadRow(toNumber: string -> Option<int>, c: LedgerCells): LedgerRow {
    var rep := PyStr(c.st);
    LedgerRow(rep, Normalize(Some(rep)), PyStr(c.customer), ParseDays(toNumber, c.days), c.balance)
  }

  function LoadRows(toNumber: string -> Option<int>, cs: seq<LedgerCells>): (rows: seq<LedgerRow>)
    ensures |rows| == |cs|
  {
    seq(|cs|, i requires 0 <= i < |cs| => LoadRow(toNumber, cs[i]))
  }

  /** `satis_veri_yukle` as written: `dropna(subset=['ST'])` runs after
      `astype(str)` has already turned every missing name into "nan", so no
      row is ever dropped. */
  function LoadLedgerAsWritten(toNumber: string -> Option<int>, cs: seq<LedgerCells>): seq<LedgerRow> {
    LoadRows(toNumber, cs)
  }

  /** A row with a missing representative survives loading as the
      representative "nan", filed under the key "nan". */
  lemma MissingRepBecomesNan(toNumber: string -> Option<int>, cs: seq<LedgerCells>, i: nat)
    requires i < |cs| && cs[i].st == Blank
    ensures var rows := LoadLedgerAsWritten(toNumber, cs);
      |rows| == |cs| && rows[i].rep == "nan" && rows[i].key == Normalize(Some("nan"))
  {
  }

  predicate HasRep(c: LedgerCells) {
    c.st != Blank
  }

  /** The loading the drop was meant to give: rows without a representative
      are dropped before the names are turned into text. */
  function LoadLedger(toNumber: string -> Option<int>, cs: seq<LedgerCells>): seq<LedgerRow> {
    LoadRows(toNumber, Filter(cs, HasRep))
  }

  /** After the intended drop, each loaded row comes from a row that has a
      representative, and every such row is loaded. */
  lemma LoadLedgerKeepsNamedRows(toNumber: string -> Option<int>, cs: seq<LedgerCells>)
    ensures forall x :: x in LoadLedger(toNumber, cs) <==>
      exists c :: c in cs && c.st != Blank && x == LoadRow(toNumber, c)
  {
    var kept := Filter(cs, HasRep);
    var rows := LoadLedger(toNumber, cs);
    forall x | x in rows
      ensures exists c :: c in cs && c.st != Blank && x == LoadRow(toNumber, c)
    {
      var i :| 0 <= i < |rows| && rows[i] == x;
      assert kept[i] in kept;
    }
    forall c | c in cs && c.st != Blank
      ensures LoadRow(toNumber, c) in rows
    {
      assert c in kept;
      var i :| 0 <= i < |kept| && kept[i] == c;
      assert rows[i] == LoadRow(toNumber, c);
    }
  }

  // ---------------------------------------------------------------- buckets

  /** `(Gün > 0) & (Kalan Tutar Total > 0)`; a missing value compares false. */
  predicate IsOverdue(r: LedgerRow) {
    r.days.Some? && r.days.value > 0 && r.balance.Some? && r.balance.value > 0
  }

  function Overdue(rows: seq<LedgerRow>): seq<LedgerRow> {
    Filter(rows, IsOverdue)
  }

  /** A row's balance as `sum` counts it: a missing balance adds nothing. */
  function Balance(r: LedgerRow): int {
    if r.balance.Some? then r.balance.value else 0
  }

  function Total(rows: seq<LedgerRow>): int {
    if rows == [] then 0 else Balance(rows[0]) + Total(rows[1..])
  }

  predicate UpTo35(r: LedgerRow) {
    r.days.Some? && r.days.value > 0 && r.days.value <= 35
  }

  predicate Over35(r: LedgerRow) {
    r.days.Some? && r.days.value > 35
  }

  predicate Over45(r: LedgerRow) {
    r.days.Some? && r.days.value > 45
  }

  predicate Over60(r: LedgerRow) {
    r.days.Some? && r.days.value > 60
  }

  /** The four overdue figures: 1-35 days, and more than 35, 45 and 60 days. */
  datatype Buckets = Buckets(upTo35: int, over35: int, over45: int, over60: int)

  /** The bucket sums over the overdue rows of `rows`. */
  function BucketsOf(rows: seq<LedgerRow>): Buckets {
    var od := Overdue(rows);
    Buckets(Total(Filter(od, UpTo35)), Total(Filter(od, Over35)), Total(Filter(od, Over45)), Total(Filter(od, Over60)))
  }

  /** `satis_df['ST'] == secilen` as a mask. */
  function IsRep(rep: string): LedgerRow -> bool {
    (r: LedgerRow) => r.rep == rep
  }

  /** The representative's own rows. */
  function ForRep(rows: seq<LedgerRow>, rep: string): seq<LedgerRow> {
    Filter(rows, IsRep(rep))
  }

  /** The figures of one representative (the detail and aging pages). */
  function RepBuckets(rows: seq<LedgerRow>, rep: string): Buckets {
    BucketsOf(ForRep(rows, rep))
  }

  lemma {:induction false} TotalSplit(s: seq<LedgerRow>, p: LedgerRow -> bool, q: LedgerRow -> bool)
    requires forall x :: x in s ==> (q(x) <==> !p(x))
    ensures Total(Filter(s, p)) + Total(Filter(s, q)) == Total(s)
    decreases |s|
  {
    if s != [] {
      assert forall x :: x in s[1..] ==> x in s;
      TotalSplit(s[1..], p, q);
    }
  }

  /** A weaker mask over non-negative balances selects at least as much. */
  lemma {:induction false} TotalMonotone(s: seq<LedgerRow>, p: LedgerRow -> bool, q: LedgerRow -> bool)
    requires forall x :: x in s ==> Balance(x) >= 0 && (p(x) ==> q(x))
    ensures 0 <= Total(Filter(s, p)) <= Total(Filter(s, q))
    decreases |s|
  {
    if s != [] {
      assert forall x :: x in s[1..] ==> x in s;
      TotalMonotone(s[1..], p, q);
    }
  }

  /** The 1-35 bucket and the over-35 bucket together are the whole overdue
      amount. */
  lemma BucketsPartition(rows: seq<LedgerRow>)
    ensures BucketsOf(rows).upTo35 + BucketsOf(rows).over35 == Total(Overdue(rows))
  {
    TotalSplit(Overdue(rows), Over35, UpTo35);
  }

  /** Every overdue balance is positive, so the buckets are ordered:
      0 <= over 60 <= over 45 <= over 35, and the 1-35 bucket is not negative. */
  lemma BucketsOrdered(rows: seq<LedgerRow>)
    ensures var b := BucketsOf(rows); 0 <= b.over60 <= b.over45 <= b.over35 && 0 <= b.upTo35
  {
    var od := Overdue(rows);
    TotalMonotone(od, Over60, Over45);
    TotalMonotone(od, Over45, Over35);
    TotalMonotone(od, UpTo35, UpTo35);
  }

  /** Taking a representative's rows and then the overdue ones is the same
      as the other way round. */
  lemma RepOverdueCommutes(rows: seq<LedgerRow>, rep: string)
    ensures Overdue(ForRep(rows, rep)) == ForRep(Overdue(rows), rep)
  {
    FilterCommute(rows, IsRep(rep), IsOverdue);
  }

  /** A representative's figure never exceeds the overall one. */
  lemma RepBucketsBounded(rows: seq<LedgerRow>, rep: string)
    ensures var r, b := RepBuckets(rows, rep), BucketsOf(rows);
      r.upTo35 <= b.upTo35 && r.over35 <= b.over35 && r.over45 <= b.over45 && r.over60 <= b.over60
  {
    var mine := IsRep(rep);
    RepOverdueCommutes(rows, rep);
    var od := Overdue(rows);
    SubsetTotal(od, mine, UpTo35);
    SubsetTotal(od, mine, Over35);
    SubsetTotal(od, mine, Over45);
    SubsetTotal(od, mine, Over60);
  }

  /** Narrowing by one more mask over non-negative balances lowers a total. */
  lemma SubsetTotal(s: seq<LedgerRow>, m: LedgerRow -> bool, p: LedgerRow -> bool)
    requires forall x :: x in s ==> Balance(x) >= 0
    ensures Total(Filter(Filter(s, m), p)) <= Total(Filter(s, p))
  {
    FilterCommute(s, m, p);
    var sp := Filter(s, p);
    TotalMonotone(sp, m, Always);
    FilterAll(sp, Always);
  }

  predicate Always(x: LedgerRow) {
    true
  }

  lemma {:induction false} FilterAll(s: seq<LedgerRow>, p: LedgerRow -> bool)
    requires forall x :: p(x)
    ensures Filter(s, p) == s
    decreases |s|
  {
    if s != [] {
      FilterAll(s[1..], p);
      assert s == [s[0]] + s[1..];
    }
  }
}
