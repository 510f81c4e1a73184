/** Values shared by every part of the model: spreadsheet cells, the
    "parse as number, else zero" coercion, and a generic order-keeping filter. */
module Base {

  datatype Option<+T> = None | Some(value: T)

  /** Why an operation that the dashboard runs inside a `try` failed. */
  datatype Failure =
    | NoFirstColumn             // the sheet has no column 0 to scan for markers
    | MissingColumn(column: string) // a total row exists but a numeric column does not

  datatype Outcome<+T> = Ok(value: T) | Fail(failure: Failure)

  /** One cell of a spreadsheet grid as the reader delivers it: missing (NaN),
      text, or a number.  Money is kept as an integer amount. */
  datatype Cell = Blank | Text(s: string) | Num(n: int)

  type Row = seq<Cell>

  /** The cell at column `j`, or Blank past the end of the row. */
  function At(r: Row, j: nat): Cell
  {
    if j < |r| then r[j] else Blank
  }

  /** `pd.to_numeric(cell, errors='coerce').fillna(0)`: numbers pass through,
      text goes through the number parser `toNumber` and falls back to 0,
      a missing cell becomes 0. */
  function Coerce(toNumber: string -> Option<int>, c: Cell): int
  {
    match c
    case Num(n) => n
    case Text(s) => if toNumber(s).Some? then toNumber(s).value else 0
    case Blank => 0
  }

  /** The zero-coercion law: a missing cell or text the parser rejects
      (such as a locale-formatted "1.234,56") becomes exactly 0, and a parsed
      or numeric cell keeps its value. */
  lemma CoerceZeroLaw(toNumber: string -> Option<int>, c: Cell)
    ensures (c.Blank? || (c.Text? && toNumber(c.s).None?)) ==> Coerce(toNumber, c) == 0
    ensures c.Num? ==> Coerce(toNumber, c) == c.n
    ensures c.Text? && toNumber(c.s).Some? ==> Coerce(toNumber, c) == toNumber(c.s).value
  {
  }

  /** Keep the elements satisfying `p`, in their original order (a boolean
      mask applied to a frame). */
  function Filter<T(!new)>(s: seq<T>, p: T -> bool): (r: seq<T>)
    ensures |r| <= |s|
    ensures forall x :: x in r <==> x in s && p(x)
    decreases |s|
  {
    if s == [] then []
    else if p(s[0]) then [s[0]] + Filter(s[1..], p)
    else Filter(s[1..], p)
  }

  /** The positions at or after `i` whose element passes `p`, in order: the
      row labels a boolean mask keeps. */
  function IndicesFrom<T(!new)>(s: seq<T>, p: T -> bool, i: nat): (h: seq<nat>)
    requires i <= |s|
    ensures forall k :: 0 <= k < |h| ==> i <= h[k] < |s| && p(s[h[k]])
    ensures forall k, l :: 0 <= k < l < |h| ==> h[k] < h[l]
    decreases |s| - i
  {
    if i == |s| then []
    else if p(s[i]) then [i] + IndicesFrom(s, p, i + 1)
    else IndicesFrom(s, p, i + 1)
  }

  /** Every passing position at or after `i` is listed. */
  lemma {:induction false} IndicesComplete<T(!new)>(s: seq<T>, p: T -> bool, i: nat, j: nat)
    requires i <= j < |s| && p(s[j])
    ensures j in IndicesFrom(s, p, i)
    decreases j - i
  {
    if i < j {
      IndicesComplete(s, p, i + 1, j);
    }
  }

  /** The elements of `s` at the positions `h`, in the order of `h`. */
  function Pick<T>(s: seq<T>, h: seq<nat>): (r: seq<T>)
    requires forall k :: 0 <= k < |h| ==> h[k] < |s|
    ensures |r| == |h|
  {
    seq(|h|, k requires 0 <= k < |h| => s[h[k]])
  }

  /** Filtering keeps exactly the elements at the passing positions, once
      each and in their original order. */
  lemma {:induction false} FilterPicks<T(!new)>(s: seq<T>, p: T -> bool, i: nat)
    requires i <= |s|
    ensures Filter(s[i..], p) == Pick(s, IndicesFrom(s, p, i))
    decreases |s| - i
  {
    if i < |s| {
      FilterPicks(s, p, i + 1);
      var t, rest := s[i..], IndicesFrom(s, p, i + 1);
      assert t != [] && t[0] == s[i] && t[1..] == s[i + 1..];
      if p(s[i]) {
        assert Filter(t, p) == [s[i]] + Filter(s[i + 1..], p);
        PickCons(s, i, rest);
      } else {
        assert Filter(t, p) == Filter(s[i + 1..], p);
      }
    }
  }

  lemma PickCons<T>(s: seq<T>, i: nat, h: seq<nat>)
    requires i < |s| && forall k :: 0 <= k < |h| ==> h[k] < |s|
    ensures Pick(s, [i] + h) == [s[i]] + Pick(s, h)
  {
    var l, r := Pick(s, [i] + h), [s[i]] + Pick(s, h);
    assert forall k :: 0 <= k < |l| ==> l[k] == r[k];
  }

  /** A passing last element is the last element kept. */
  lemma {:induction false} FilterKeepsLast<T(!new)>(s: seq<T>, p: T -> bool)
    requires |s| > 0 && p(s[|s| - 1])
    ensures |Filter(s, p)| > 0 && Filter(s, p)[|Filter(s, p)| - 1] == s[|s| - 1]
    decreases |s|
  {
    if |s| > 1 {
      assert s[1..][|s| - 2] == s[|s| - 1];
      FilterKeepsLast(s[1..], p);
    }
  }

  /** Two masks applied one after the other commute. */
  lemma {:induction false} FilterCommute<T(!new)>(s: seq<T>, p: T -> bool, q: T -> bool)
    ensures Filter(Filter(s, p), q) == Filter(Filter(s, q), p)
    decreases |s|
  {
    if s != [] {
      FilterCommute(s[1..], p, q);
    }
  }

  /** A mask that no element passes selects nothing. */
  lemma {:induction false} FilterNone<T(!new)>(s: seq<T>, p: T -> bool)
    requires forall i :: 0 <= i < |s| ==> !p(s[i])
    ensures Filter(s, p) == []
    decreases |s|
  {
    if s != [] {
      FilterNone(s[1..], p);
    }
  }

  /** A mask and its negation split a sequence between them. */
  lemma {:induction false} FilterSplit<T(!new)>(s: seq<T>, p: T -> bool, q: T -> bool)
    requires forall x :: q(x) <==> !p(x)
    ensures |Filter(s, p)| + |Filter(s, q)| == |s|
    decreases |s|
  {
    if s != [] {
      FilterSplit(s[1..], p, q);
    }
  }

  /** Decimal text of an integer, as Python's `str` writes it. */
  function IntToString(i: int): (r: string)
    ensures |r| > 0
  {
    if i < 0 then "-" + NatToString(-i) else NatToString(i)
  }

  function NatToString(n: nat): (r: string)
    ensures |r| > 0
    ensures forall c :: c in r ==> '0' <= c <= '9'
  {
    var d := ['0', '1', '2', '3', '4', '5', '6', '7', '8', '9'];
    if n < 10 then [d[n]] else NatToString(n / 10) + [d[n % 10]]
  }
}
