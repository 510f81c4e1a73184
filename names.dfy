/** `normalize_turkish_names`: the join key that matches representative
    names between the sales ledger and the sales-vs-target sheet. */
module Names {
  import opened Base
  import opened Text

  /** "i" followed by a combining dot above: what Python's lower() makes of İ. */
  const DottedI: string := ['i', DotAbove]

  /** The one known misspelling and its correction. */
  const Typo: string := "kalyuncu"
  const Correction: string := "kalyoncu"

  /** The lower-case Turkish letters that the fold maps to ASCII. */
  predicate IsTurkishLetter(c: char) {
    c == '\U{15F}' || c == '\U{E7}' || c == '\U{11F}' || c == '\U{F6}' || c == '\U{FC}'
    || c == '\U{131}'
  }

  /** The replacement chain of the normaliser, in the source's order; the
      second step, `replace('i', 'i')`, is kept although it changes nothing. */
  function Fold(s: string): string {
    var s1 := ReplaceAll(s, DottedI, "i");
    var s2 := ReplaceAll(s1, "i", "i");
    var s3 := ReplaceAll(s2, ['\U{15F}'], "s");
    var s4 := ReplaceAll(s3, ['\U{E7}'], "c");
    var s5 := ReplaceAll(s4, ['\U{11F}'], "g");
    var s6 := ReplaceAll(s5, ['\U{F6}'], "o");
    var s7 := ReplaceAll(s6, ['\U{FC}'], "u");
    ReplaceAll(s7, ['\U{131}'], "i")
  }

  /** `normalize_turkish_names(name)`; `None` is a missing (NaN) name. */
  function Normalize(name: Option<string>): string {
    match name
    case None => ""
    case Some(s) => ReplaceAll(Fold(Lower(Strip(s))), Typo, Correction)
  }

  /** The text that `str(cell)` hands to the normaliser. */
  function NormalizeCell(c: Cell): string {
    match c
    case Blank => Normalize(None)
    case Text(s) => Normalize(Some(s))
    case Num(n) => Normalize(Some(IntToString(n)))
  }

  /** What every join key looks like: stripped, with no capital and no
      Turkish letter left, and without the misspelling. */
  predicate IsNormalKey(k: string) {
    IsStripped(k)
    && (forall c :: c in k ==> !IsUpper(c) && !IsTurkishLetter(c))
    && !Contains(k, Typo)
  }

  lemma TypoIsSelfClearing()
    ensures SelfClearing(Typo, Correction)
  {
    assert Typo[1..] == "alyuncu";
    assert Correction[1..] == "alyoncu";
  }

  /** `s` is stripped, has no capital, and none of the characters in `gone`. */
  predicate FoldedSoFar(s: string, gone: string) {
    IsStripped(s) && forall c :: c in s ==> !IsUpper(c) && c !in gone
  }

  /** One replacement of the chain: a letter is replaced by a lower-case
      ASCII letter that is not among those already removed. */
  lemma FoldStep(s: string, gone: string, c: char, into: char)
    requires FoldedSoFar(s, gone)
    requires 'a' <= into <= 'z' && into !in gone && into != c
    ensures FoldedSoFar(ReplaceAll(s, [c], [into]), gone + [c])
  {
    ReplaceKeepsStripped(s, [c], [into]);
    ReplaceRemovesChar(s, c, [into]);
  }

  /** The fold keeps a stripped, lower-case string stripped and lower-case,
      and removes every Turkish letter. */
  lemma FoldSpec(s: string)
    requires IsStripped(s) && forall c :: c in s ==> !IsUpper(c)
    ensures IsStripped(Fold(s))
    ensures forall c :: c in Fold(s) ==> !IsUpper(c) && !IsTurkishLetter(c)
  {
    var s1 := ReplaceAll(s, DottedI, "i");
    var s2 := ReplaceAll(s1, "i", "i");
    ReplaceKeepsStripped(s, DottedI, "i");
    ReplaceBySelf(s1, "i");
    assert FoldedSoFar(s2, []);
    var s3 := ReplaceAll(s2, ['\U{15F}'], "s");
    FoldStep(s2, [], '\U{15F}', 's');
    var s4 := ReplaceAll(s3, ['\U{E7}'], "c");
    FoldStep(s3, ['\U{15F}'], '\U{E7}', 'c');
    var s5 := ReplaceAll(s4, ['\U{11F}'], "g");
    FoldStep(s4, ['\U{15F}', '\U{E7}'], '\U{11F}', 'g');
    var s6 := ReplaceAll(s5, ['\U{F6}'], "o");
    FoldStep(s5, ['\U{15F}', '\U{E7}', '\U{11F}'], '\U{F6}', 'o');
    var s7 := ReplaceAll(s6, ['\U{FC}'], "u");
    FoldStep(s6, ['\U{15F}', '\U{E7}', '\U{11F}', '\U{F6}'], '\U{FC}', 'u');
    FoldStep(s7, ['\U{15F}', '\U{E7}', '\U{11F}', '\U{F6}', '\U{FC}'], '\U{131}', 'i');
  }

  /** When every dot follows an "i", the fold leaves no dot. */
  lemma FoldRemovesDots(s: string)
    requires DotsAfterI(s)
    ensures DotAbove !in Fold(s)
  {
    var s1 := ReplaceAll(s, DottedI, "i");
    var s2 := ReplaceAll(s1, "i", "i");
    var s3 := ReplaceAll(s2, ['\U{15F}'], "s");
    var s4 := ReplaceAll(s3, ['\U{E7}'], "c");
    var s5 := ReplaceAll(s4, ['\U{11F}'], "g");
    var s6 := ReplaceAll(s5, ['\U{F6}'], "o");
    var s7 := ReplaceAll(s6, ['\U{FC}'], "u");
    ReplaceDottedI(s);
    assert DotAbove !in s2;
    assert DotAbove !in s3 && DotAbove !in s4 && DotAbove !in s5;
    assert DotAbove !in s6 && DotAbove !in s7;
  }

  /** On a string that is already folded the fold changes nothing. */
  lemma FoldOfFolded(s: string)
    requires DotAbove !in s && forall c :: c in s ==> !IsTurkishLetter(c)
    ensures Fold(s) == s
  {
    ContainsNeedsChar(s, DottedI, DotAbove);
    ReplaceAbsent(s, DottedI, "i");
    FoldAfterFirstStep(s);
  }

  /** The normaliser is total; a missing name gives the empty key, and any
      other name gives a normal key: stripped, lower-case, free of the six
      Turkish letters and of the misspelling "kalyuncu". */
  lemma NormalizeSpec(name: Option<string>)
    ensures name.None? ==> Normalize(name) == ""
    ensures IsNormalKey(Normalize(name))
  {
    if name.Some? {
      var t := Strip(name.value);
      StripIsStripped(name.value);
      LowerKeepsStripped(t);
      var f := Fold(Lower(t));
      FoldSpec(Lower(t));
      TypoIsSelfClearing();
      ReplaceEliminates(f, Typo, Correction);
      ReplaceKeepsStripped(f, Typo, Correction);
      assert forall c :: c in Correction ==> !IsUpper(c) && !IsTurkishLetter(c);
    }
  }

  /** The normaliser is idempotent on every name whose lower case carries
      a combining dot above only right after an "i": names without such a
      dot, names with an upper-case İ, and names already holding "i̇". */
  lemma NormalizeIdempotent(name: Option<string>)
    requires name.Some? ==> DotsAfterI(Lower(Strip(name.value)))
    ensures Normalize(Some(Normalize(name))) == Normalize(name)
  {
    NormalizeSpec(name);
    NormalizeKeepsDotFree(name);
    NormalizeOfKey(Normalize(name));
  }

  /** A name typed without any combining dot meets that requirement. */
  lemma DotFreeNameQualifies(s: string)
    requires DotAbove !in s
    ensures DotsAfterI(Lower(Strip(s)))
  {
    StripKeepsChars(s);
    LowerDots(Strip(s));
  }

  /** When every dot of the lower case follows an "i", the key has no dot. */
  lemma NormalizeKeepsDotFree(name: Option<string>)
    requires name.Some? ==> DotsAfterI(Lower(Strip(name.value)))
    ensures DotAbove !in Normalize(name)
  {
    if name.Some? {
      var l := Lower(Strip(name.value));
      FoldRemovesDots(l);
      CorrectionKeepsDotFree(Fold(l));
    }
  }

  lemma CorrectionKeepsDotFree(f: string)
    requires DotAbove !in f
    ensures DotAbove !in ReplaceAll(f, Typo, Correction)
  {
    assert DotAbove !in Correction;
  }

  /** A dot-free normal key normalises to itself. */
  lemma NormalizeOfKey(k: string)
    requires IsNormalKey(k) && DotAbove !in k
    ensures Normalize(Some(k)) == k
  {
    StripStripped(k);
    LowerOfLower(k);
    FoldOfFolded(k);
    ReplaceAbsent(k, Typo, Correction);
  }

  /** Why idempotence needs a hypothesis on the dots: `str.replace` makes a
      single pass, so an "i" carrying two dots loses only one of them on the
      first call and the other on the second. */
  lemma IdempotenceCanFail(s: string)
    requires s == ['i', DotAbove, DotAbove]
    ensures Normalize(Some(s)) == DottedI
    ensures Normalize(Some(DottedI)) == "i"
    ensures Normalize(Some(Normalize(Some(s)))) != Normalize(Some(s))
  {
    DoubleDotLosesOne(s);
    DottedILosesDot(DottedI);
  }

  lemma DoubleDotLosesOne(s: string)
    requires s == ['i', DotAbove, DotAbove]
    ensures Normalize(Some(s)) == DottedI
  {
    assert forall c :: c in s ==> c == 'i' || c == DotAbove;
    NormalizeOfDots(s);
    ReplaceDoubleDot(s);
  }

  lemma ReplaceDoubleDot(s: string)
    requires s == ['i', DotAbove, DotAbove]
    ensures ReplaceAll(s, DottedI, "i") == DottedI
  {
    var rest := [DotAbove];
    assert s[..2] == DottedI && s[2..] == rest;
    assert ReplaceAll(s, DottedI, "i") == "i" + ReplaceAll(rest, DottedI, "i");
    assert ReplaceAll(rest, DottedI, "i") == rest + ReplaceAll([], DottedI, "i");
  }

  lemma DottedILosesDot(d: string)
    requires d == DottedI
    ensures Normalize(Some(d)) == "i"
  {
    NormalizeOfDots(d);
    assert StartsWith(d, DottedI) && d[2..] == [];
  }

  /** On text that is already stripped and lower-case, normalising is the
      fold followed by the typo correction. */
  lemma NormalizeOfLower(s: string)
    requires IsStripped(s) && forall c :: c in s ==> !IsUpper(c)
    ensures Normalize(Some(s)) == ReplaceAll(Fold(s), Typo, Correction)
  {
    StripStripped(s);
    LowerOfLower(s);
  }

  /** On a string of "i"s and dots that starts with "i", normalising is the
      first replacement step alone. */
  lemma NormalizeOfDots(s: string)
    requires |s| > 0 && s[0] == 'i' && forall c :: c in s ==> c == 'i' || c == DotAbove
    ensures Normalize(Some(s)) == ReplaceAll(s, DottedI, "i")
  {
    DotsAreLowerAndStripped(s);
    NormalizeOfLower(s);
    FoldOfDots(s);
  }

  lemma DotsAreLowerAndStripped(s: string)
    requires |s| > 0 && s[0] == 'i' && forall c :: c in s ==> c == 'i' || c == DotAbove
    ensures IsStripped(s) && forall c :: c in s ==> !IsUpper(c)
  {
    assert s[0] in s && s[|s| - 1] in s;
  }

  /** On "i"s and dots, the fold and the typo correction reduce to the first
      replacement step. */
  lemma FoldOfDots(s: string)
    requires forall c :: c in s ==> c == 'i' || c == DotAbove
    ensures Fold(s) == ReplaceAll(s, DottedI, "i")
    ensures ReplaceAll(Fold(s), Typo, Correction) == Fold(s)
  {
    var s1 := ReplaceAll(s, DottedI, "i");
    ReplaceWithin(s, DottedI, "i", c => c == 'i' || c == DotAbove);
    FoldAfterFirstStep(s);
    TypoAbsentFromDots(s1);
  }

  /** A string of "i"s and dots holds no "kalyuncu" to correct. */
  lemma TypoAbsentFromDots(t: string)
    requires forall c :: c in t ==> c == 'i' || c == DotAbove
    ensures ReplaceAll(t, Typo, Correction) == t
  {
    assert Typo[0] == 'k';
    assert 'k' !in t;
    ContainsNeedsChar(t, Typo, 'k');
    ReplaceAbsent(t, Typo, Correction);
  }

  /** When the first step leaves no Turkish letter, the rest of the fold is
      the identity. */
  lemma FoldAfterFirstStep(s: string)
    requires forall c :: c in ReplaceAll(s, DottedI, "i") ==> !IsTurkishLetter(c)
    ensures Fold(s) == ReplaceAll(s, DottedI, "i")
  {
    var s1 := ReplaceAll(s, DottedI, "i");
    ReplaceBySelf(s1, "i");
    ContainsNeedsChar(s1, ['\U{15F}'], '\U{15F}');
    ReplaceAbsent(s1, ['\U{15F}'], "s");
    ContainsNeedsChar(s1, ['\U{E7}'], '\U{E7}');
    ReplaceAbsent(s1, ['\U{E7}'], "c");
    ContainsNeedsChar(s1, ['\U{11F}'], '\U{11F}');
    ReplaceAbsent(s1, ['\U{11F}'], "g");
    ContainsNeedsChar(s1, ['\U{F6}'], '\U{F6}');
    ReplaceAbsent(s1, ['\U{F6}'], "o");
    ContainsNeedsChar(s1, ['\U{FC}'], '\U{FC}');
    ReplaceAbsent(s1, ['\U{FC}'], "u");
    ContainsNeedsChar(s1, ['\U{131}'], '\U{131}');
    ReplaceAbsent(s1, ['\U{131}'], "i");
  }

  /** The fold passes over the misspelled prefix untouched. */
  lemma FoldSkipsTypo(x: string)
    ensures Fold(Typo + x) == Typo + Fold(x)
  {
    var t := Typo;
    assert forall c :: c in t ==> 'a' <= c <= 'y' && c != 'i';
    var s1 := ReplaceAll(x, DottedI, "i");
    ReplaceSkipsPrefix(t, x, DottedI, "i");
    var s2 := ReplaceAll(s1, "i", "i");
    ReplaceSkipsPrefix(t, s1, "i", "i");
    var s3 := ReplaceAll(s2, ['\U{15F}'], "s");
    ReplaceSkipsPrefix(t, s2, ['\U{15F}'], "s");
    var s4 := ReplaceAll(s3, ['\U{E7}'], "c");
    ReplaceSkipsPrefix(t, s3, ['\U{E7}'], "c");
    var s5 := ReplaceAll(s4, ['\U{11F}'], "g");
    ReplaceSkipsPrefix(t, s4, ['\U{11F}'], "g");
    var s6 := ReplaceAll(s5, ['\U{F6}'], "o");
    ReplaceSkipsPrefix(t, s5, ['\U{F6}'], "o");
    var s7 := ReplaceAll(s6, ['\U{FC}'], "u");
    ReplaceSkipsPrefix(t, s6, ['\U{FC}'], "u");
    ReplaceSkipsPrefix(t, s7, ['\U{131}'], "i");
  }

  /** The known misspelling is corrected whatever its case and whatever
      follows it: a name that lower-cases to "kalyuncu..." (such as
      "KALYUNCU Ahmet") normalises to one that starts with "kalyoncu". */
  lemma TypoCorrected(name: string)
    requires StartsWith(Lower(Strip(name)), Typo)
    ensures StartsWith(Normalize(Some(name)), Correction)
  {
    var l := Lower(Strip(name));
    var rest := l[|Typo|..];
    assert l == Typo + rest;
    FoldSkipsTypo(rest);
    var f := Fold(l);
    assert f == Typo + Fold(rest);
    assert StartsWith(f, Typo);
    assert f[|Typo|..] == Fold(rest);
    assert Normalize(Some(name)) == Correction + ReplaceAll(Fold(rest), Typo, Correction);
  }
}
