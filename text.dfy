/** The string primitives that name normalisation is built from, with the
    semantics of Python's `str.strip`, `str.lower` and `str.replace`. */
module Text {

  /** Characters for which Python's `str.isspace()` holds. */
  predicate IsSpace(c: char) {
    ('\t' <= c <= '\r') || ('\U{1C}' <= c <= '\U{1F}') || c == ' ' || c == '\U{85}'
    || c == '\U{A0}' || c == '\U{1680}' || ('\U{2000}' <= c <= '\U{200A}')
    || c == '\U{2028}' || c == '\U{2029}' || c == '\U{202F}' || c == '\U{205F}'
    || c == '\U{3000}'
  }

  /** No whitespace at either end. */
  predicate IsStripped(s: string) {
    s == [] || (!IsSpace(s[0]) && !IsSpace(s[|s| - 1]))
  }

  /** `s.lstrip()`: the longest all-whitespace prefix is removed. */
  function StripLeft(s: string): (r: string)
    ensures |r| <= |s| && r == s[|s| - |r|..]
    ensures forall k :: 0 <= k < |s| - |r| ==> IsSpace(s[k])
    ensures r == [] || !IsSpace(r[0])
    decreases |s|
  {
    if s != [] && IsSpace(s[0]) then StripLeft(s[1..]) else s
  }

  /** `s.rstrip()`: the longest all-whitespace suffix is removed. */
  function StripRight(s: string): (r: string)
    ensures |r| <= |s| && r == s[..|r|]
    ensures forall k :: |r| <= k < |s| ==> IsSpace(s[k])
    ensures r == [] || !IsSpace(r[|r| - 1])
    decreases |s|
  {
    if s != [] && IsSpace(s[|s| - 1]) then StripRight(s[..|s| - 1]) else s
  }

  /** `s.strip()`. */
  function Strip(s: string): string {
    StripRight(StripLeft(s))
  }

  /** Strip leaves no whitespace at either end. */
  lemma StripIsStripped(s: string)
    ensures IsStripped(Strip(s))
  {
    var l := StripLeft(s);
    var r := StripRight(l);
    assert r != [] ==> r[0] == l[0];
  }

  /** Strip keeps a contiguous slice of its input, `s[i..j]`, and what it
      removes on either side is whitespace. */
  lemma StripRemovesOnlySpace(s: string)
    ensures var i := |s| - |StripLeft(s)|;
      i + |Strip(s)| <= |s| && Strip(s) == s[i..i + |Strip(s)|]
      && (forall k :: 0 <= k < i ==> IsSpace(s[k]))
      && (forall k :: i + |Strip(s)| <= k < |s| ==> IsSpace(s[k]))
  {
    var l := StripLeft(s);
    var r := StripRight(l);
    var i := |s| - |l|;
    assert l == s[i..];
    assert r == l[..|r|];
    forall k | i + |r| <= k < |s| ensures IsSpace(s[k]) {
      assert s[k] == l[k - i];
    }
  }

  /** Every character of the stripped text comes from the input. */
  lemma StripKeepsChars(s: string)
    ensures forall c :: c in Strip(s) ==> c in s
  {
    StripRemovesOnlySpace(s);
  }

  /** A string that is already stripped is left alone. */
  lemma StripStripped(s: string)
    requires IsStripped(s)
    ensures Strip(s) == s
  {
  }

  // ----- lower-casing -----

  const DotAbove: char := '\U{0307}'   // COMBINING DOT ABOVE

  /** Upper-case letters whose lower case the model knows: ASCII A-Z and the
      Turkish capitals Ç Ğ İ Ö Ş Ü. */
  predicate IsUpper(c: char) {
    ('A' <= c <= 'Z') || c == '\U{C7}' || c == '\U{11E}' || c == '\U{130}'
    || c == '\U{D6}' || c == '\U{15E}' || c == '\U{DC}'
  }

  /** `c.lower()`.  As in Python, capital dotted İ becomes two characters,
      "i" followed by a combining dot above. */
  function LowerChar(c: char): (r: string)
    ensures |r| > 0
    ensures forall d :: d in r ==> !IsUpper(d)
    ensures !IsUpper(c) ==> r == [c]
    ensures IsSpace(r[0]) == IsSpace(c) && IsSpace(r[|r| - 1]) == IsSpace(c)
    ensures r[0] == DotAbove <==> c == DotAbove
  {
    if 'A' <= c <= 'Z' then [(c as int + 32) as char]
    else if c == '\U{C7}' then ['\U{E7}']
    else if c == '\U{11E}' then ['\U{11F}']
    else if c == '\U{130}' then ['i', DotAbove]
    else if c == '\U{D6}' then ['\U{F6}']
    else if c == '\U{15E}' then ['\U{15F}']
    else if c == '\U{DC}' then ['\U{FC}']
    else [c]
  }

  /** `s.lower()`, character by character. */
  function Lower(s: string): (r: string)
    ensures forall d :: d in r ==> !IsUpper(d)
    ensures |r| >= |s|
    decreases |s|
  {
    if s == [] then [] else LowerChar(s[0]) + Lower(s[1..])
  }

  lemma {:induction false} LowerAppend(a: string, b: string)
    ensures Lower(a + b) == Lower(a) + Lower(b)
    decreases |a|
  {
    if a == [] {
      assert a + b == b;
    } else {
      assert (a + b)[0] == a[0];
      assert (a + b)[1..] == a[1..] + b;
      LowerAppend(a[1..], b);
    }
  }

  /** Lower-casing keeps a stripped string stripped: it never turns a
      non-space character into a space, nor a space into anything else. */
  lemma LowerKeepsStripped(s: string)
    requires IsStripped(s)
    ensures IsStripped(Lower(s))
  {
    if s != [] {
      var n := |s| - 1;
      assert s == s[..n] + [s[n]];
      LowerAppend(s[..n], [s[n]]);
      assert Lower([s[n]]) == LowerChar(s[n]) by {
        assert [s[n]][1..] == [];
      }
      var r := Lower(s);
      assert r[|r| - 1] == LowerChar(s[n])[|LowerChar(s[n])| - 1];
    }
  }

  /** A string with no known capital is its own lower case. */
  lemma {:induction false} LowerOfLower(s: string)
    requires forall d :: d in s ==> !IsUpper(d)
    ensures Lower(s) == s
    decreases |s|
  {
    if s != [] {
      assert s[0] in s;
      assert forall d :: d in s[1..] ==> d in s;
      LowerOfLower(s[1..]);
    }
  }

  /** Every combining dot in `s` directly follows an "i". */
  predicate DotsAfterI(s: string) {
    forall j :: 0 <= j < |s| && s[j] == DotAbove ==> 0 < j && s[j - 1] == 'i'
  }

  /** Lower-casing a dot-free string places a combining dot only after the
      "i" that comes from a capital İ. */
  lemma {:induction false} LowerDots(s: string)
    requires DotAbove !in s
    ensures DotsAfterI(Lower(s))
    decreases |s|
  {
    if s != [] {
      var a := LowerChar(s[0]);
      var b := Lower(s[1..]);
      assert forall d :: d in s[1..] ==> d in s;
      LowerDots(s[1..]);
      assert s[0] != DotAbove by { assert s[0] in s; }
      assert DotsAfterI(a);
      assert b == [] || b[0] != DotAbove by {
        if b != [] {
          assert b[0] == LowerChar(s[1])[0];
          assert s[1] in s;
        }
      }
      var ab := a + b;
      forall j | 0 <= j < |ab| && ab[j] == DotAbove
        ensures 0 < j && ab[j - 1] == 'i'
      {
        if j >= |a| {
          assert b[j - |a|] == DotAbove;
          assert j - |a| > 0;
        }
      }
    }
  }

  // ----- search and replace -----

  predicate StartsWith(s: string, p: string) {
    |p| <= |s| && s[..|p|] == p
  }

  /** `p in s` (substring test). */
  predicate Contains(s: string, p: string)
    decreases |s|
  {
    StartsWith(s, p) || (s != [] && Contains(s[1..], p))
  }

  /** A substring can only occur where all of its characters occur. */
  lemma {:induction false} ContainsNeedsChar(s: string, p: string, c: char)
    requires c in p && c !in s
    ensures !Contains(s, p)
    decreases |s|
  {
    if |p| <= |s| {
      assert s[..|p|] != p by {
        var k :| 0 <= k < |p| && p[k] == c;
        assert s[..|p|][k] == s[k];
        assert s[k] in s;
      }
    }
    if s != [] {
      assert forall d :: d in s[1..] ==> d in s;
      ContainsNeedsChar(s[1..], p, c);
    }
  }

  /** `s.replace(pat, rep)`: one left-to-right pass replacing
      non-overlapping occurrences; the replacement is never rescanned. */
  function ReplaceAll(s: string, pat: string, rep: string): (r: string)
    requires |pat| > 0
    ensures forall c :: c in r ==> c in s || c in rep
    decreases |s|
  {
    if StartsWith(s, pat) then rep + ReplaceAll(s[|pat|..], pat, rep)
    else if s == [] then []
    else [s[0]] + ReplaceAll(s[1..], pat, rep)
  }

  /** Replacing a single character by a string without it removes it. */
  lemma {:induction false} ReplaceRemovesChar(s: string, c: char, rep: string)
    requires c !in rep
    ensures c !in ReplaceAll(s, [c], rep)
    decreases |s|
  {
    if s != [] {
      ReplaceRemovesChar(s[1..], c, rep);
    }
  }

  /** Replacing a pattern by itself (such as `replace('i', 'i')`) is the identity. */
  lemma {:induction false} ReplaceBySelf(s: string, pat: string)
    requires |pat| > 0
    ensures ReplaceAll(s, pat, pat) == s
    decreases |s|
  {
    if StartsWith(s, pat) {
      ReplaceBySelf(s[|pat|..], pat);
      assert s == pat + s[|pat|..];
    } else if s != [] {
      ReplaceBySelf(s[1..], pat);
      assert s == [s[0]] + s[1..];
    }
  }

  /** A property every character of the input and of the replacement has
      is shared by every character of the output. */
  lemma ReplaceWithin(s: string, pat: string, rep: string, p: char -> bool)
    requires |pat| > 0
    requires forall c :: c in s ==> p(c)
    requires forall c :: c in rep ==> p(c)
    ensures forall c :: c in ReplaceAll(s, pat, rep) ==> p(c)
  {
  }

  /** A prefix free of the pattern's first character is copied unchanged. */
  lemma {:induction false} ReplaceSkipsPrefix(u: string, x: string, pat: string, rep: string)
    requires |pat| > 0 && pat[0] !in u
    ensures ReplaceAll(u + x, pat, rep) == u + ReplaceAll(x, pat, rep)
    decreases |u|
  {
    if u == [] {
      assert u + x == x;
    } else {
      var w := u + x;
      assert w[0] == u[0] && u[0] in u;
      assert !StartsWith(w, pat) by {
        if |pat| <= |w| {
          assert w[..|pat|][0] == w[0];
        }
      }
      assert w[1..] == u[1..] + x;
      assert pat[0] !in u[1..] by {
        assert forall d :: d in u[1..] ==> d in u;
      }
      calc {
        ReplaceAll(w, pat, rep);
        [w[0]] + ReplaceAll(w[1..], pat, rep);
        { ReplaceSkipsPrefix(u[1..], x, pat, rep); }
        [u[0]] + (u[1..] + ReplaceAll(x, pat, rep));
        { assert [u[0]] + u[1..] == u; }
        u + ReplaceAll(x, pat, rep);
      }
    }
  }

  /** Replacing an absent pattern changes nothing. */
  lemma {:induction false} ReplaceAbsent(s: string, pat: string, rep: string)
    requires |pat| > 0 && !Contains(s, pat)
    ensures ReplaceAll(s, pat, rep) == s
    decreases |s|
  {
    if s != [] {
      ReplaceAbsent(s[1..], pat, rep);
      assert s == [s[0]] + s[1..];
    }
  }

  /** With a whitespace-free replacement a stripped string stays stripped:
      the first and last characters of the result come from the input or
      from the replacement. */
  lemma {:induction false} ReplaceKeepsStripped(s: string, pat: string, rep: string)
    requires |pat| > 0 && |rep| > 0
    requires forall c :: c in rep ==> !IsSpace(c)
    requires IsStripped(s)
    ensures IsStripped(ReplaceAll(s, pat, rep))
  {
    if s != [] {
      ReplaceLast(s, pat, rep);
      var r := ReplaceAll(s, pat, rep);
      assert r[0] == s[0] || r[0] == rep[0];
      assert rep[0] in rep && rep[|rep| - 1] in rep;
    }
  }

  lemma {:induction false} ReplaceLast(s: string, pat: string, rep: string)
    requires |pat| > 0 && |rep| > 0 && |s| > 0
    ensures var r := ReplaceAll(s, pat, rep);
      |r| > 0 && (r[|r| - 1] == s[|s| - 1] || r[|r| - 1] == rep[|rep| - 1])
    decreases |s|
  {
    if StartsWith(s, pat) {
      if |s| > |pat| {
        ReplaceLast(s[|pat|..], pat, rep);
      }
    } else if |s| > 1 {
      ReplaceLast(s[1..], pat, rep);
    }
  }

  /** If `s` has no dot except directly after an "i", replacing "i" + dot
      by "i" leaves no dot at all. */
  lemma {:induction false} ReplaceDottedI(s: string)
    requires DotsAfterI(s)
    ensures DotAbove !in ReplaceAll(s, ['i', DotAbove], "i")
    decreases |s|
  {
    var pat := ['i', DotAbove];
    if StartsWith(s, pat) {
      var t := s[2..];
      assert s[1] == pat[1];
      forall j | 0 <= j < |t| && t[j] == DotAbove ensures 0 < j && t[j - 1] == 'i' {
        assert s[j + 2] == DotAbove;
      }
      ReplaceDottedI(t);
    } else if s != [] {
      var t := s[1..];
      assert s[0] != DotAbove;
      assert |s| >= 2 ==> (s[..2] == pat <==> s[0] == 'i' && s[1] == DotAbove);
      forall j | 0 <= j < |t| && t[j] == DotAbove ensures 0 < j && t[j - 1] == 'i' {
        assert s[j + 1] == DotAbove;
      }
      ReplaceDottedI(t);
    }
  }

  // The typo rewrite: a replacement that cannot recreate its own pattern.

  /** The pattern's first character occurs nowhere else in the pattern or in
      the replacement except at the same leading place, and the two differ.
      Then no occurrence of the pattern can straddle a rewritten piece. */
  predicate SelfClearing(pat: string, rep: string) {
    |pat| > 0 && |rep| == |pat| && rep != pat && rep[0] == pat[0]
    && pat[0] !in pat[1..] && pat[0] !in rep[1..]
  }

  lemma {:induction false} ContainsSkip(u: string, x: string, p: string)
    requires |p| > 0 && p[0] !in u
    ensures Contains(u + x, p) ==> Contains(x, p)
    decreases |u|
  {
    if u != [] {
      assert (u + x)[0] == u[0];
      assert (u + x)[1..] == u[1..] + x;
      ContainsSkip(u[1..], x, p);
    } else {
      assert u + x == x;
    }
  }

  lemma {:induction false} PrefixComesFromInput(t: string, pat: string, rep: string, w: string)
    requires |pat| > 0 && |rep| > 0 && rep[0] == pat[0] && pat[0] !in w
    ensures StartsWith(ReplaceAll(t, pat, rep), w) ==> StartsWith(t, w)
    decreases |t|
  {
    var r := ReplaceAll(t, pat, rep);
    if w != [] && StartsWith(r, w) {
      assert r[0] == w[0];
      assert pat[0] != w[0] by { assert w[0] in w; }
      assert !StartsWith(t, pat);
      assert t != [];
      var r' := ReplaceAll(t[1..], pat, rep);
      assert r == [t[0]] + r';
      assert StartsWith(r', w[1..]) by {
        assert r'[..|w| - 1] == r[1..|w|];
      }
      assert pat[0] !in w[1..] by {
        assert forall d :: d in w[1..] ==> d in w;
      }
      PrefixComesFromInput(t[1..], pat, rep, w[1..]);
      assert t[..|w|] == [t[0]] + t[1..][..|w| - 1];
    }
  }

  /** After a self-clearing replacement the pattern no longer occurs. */
  lemma {:induction false} ReplaceEliminates(s: string, pat: string, rep: string)
    requires SelfClearing(pat, rep)
    ensures !Contains(ReplaceAll(s, pat, rep), pat)
    decreases |s|
  {
    var r := ReplaceAll(s, pat, rep);
    if StartsWith(s, pat) {
      var r' := ReplaceAll(s[|pat|..], pat, rep);
      ReplaceEliminates(s[|pat|..], pat, rep);
      assert r == rep + r';
      assert !StartsWith(r, pat) by {
        assert r[..|pat|] == rep;
      }
      assert r[1..] == rep[1..] + r';
      ContainsSkip(rep[1..], r', pat);
    } else if s != [] {
      var r' := ReplaceAll(s[1..], pat, rep);
      ReplaceEliminates(s[1..], pat, rep);
      assert r == [s[0]] + r';
      assert r[1..] == r';
      assert StartsWith(r, pat) ==> StartsWith(r', pat[1..]) by {
        if StartsWith(r, pat) {
          assert r'[..|pat| - 1] == r[1..|pat|];
        }
      }
      PrefixComesFromInput(s[1..], pat, rep, pat[1..]);
      assert |pat| <= |s| ==> s[..|pat|] == [s[0]] + s[1..][..|pat| - 1];
    }
  }
}
