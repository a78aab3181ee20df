/** The Python `str` operations the response parser and the score rely on:
    `find`, `rfind`, slicing with non-negative bounds, single-character
    `replace`, argument-less `strip`, and `int` applied to a string.
    Strings are sequences of Unicode scalar values, which approximates
    Python 3 strings (those may also hold lone surrogates). */
module PyStr {
  import opened Wrappers

  // ---------------------------------------------------------------------
  // Occurrences and search
  // ---------------------------------------------------------------------

  /** `p` occurs in `s` starting at index `i`. */
  predicate OccursAt(s: string, p: string, i: int) {
    0 <= i && i + |p| <= |s| && s[i..i + |p|] == p
  }

  /** Python's `p in s`. */
  ghost predicate Contains(s: string, p: string) {
    exists i :: OccursAt(s, p, i)
  }

  /** `i` is the lowest index at which `p` occurs in `s`. */
  ghost predicate IsFirstAt(s: string, p: string, i: int) {
    OccursAt(s, p, i) && forall j :: 0 <= j < i ==> !OccursAt(s, p, j)
  }

  /** `i` is the highest index at which `p` occurs in `s`. */
  ghost predicate IsLastAt(s: string, p: string, i: int) {
    OccursAt(s, p, i) && forall j :: i < j ==> !OccursAt(s, p, j)
  }

  /** Python's `s.find(p)`: the lowest index at which `p` occurs, or -1
      (`FindSpec` states this). */
  function Find(s: string, p: string): (r: int)
    ensures r == -1 || 0 <= r <= |s| - |p|
  {
    FindFrom(s, p, 0)
  }

  /** The scan behind `Find`: the lowest index from `k` on at which `p`
      occurs, or -1. */
  function FindFrom(s: string, p: string, k: nat): (r: int)
    ensures r == -1 || k <= r <= |s| - |p|
    decreases |s| - k
  {
    if |s| < k + |p| then -1
    else if s[k..k + |p|] == p then k
    else FindFrom(s, p, k + 1)
  }

  /** The scan from `k` finds the first occurrence at or after `k`, and
      reports -1 only when there is none. */
  lemma {:induction false} FindFromSpec(s: string, p: string, k: nat)
    ensures var r := FindFrom(s, p, k);
            && (r == -1 ==> forall j :: k <= j ==> !OccursAt(s, p, j))
            && (r != -1 ==> OccursAt(s, p, r) && forall j :: k <= j < r ==> !OccursAt(s, p, j))
    decreases |s| - k
  {
    if |s| < k + |p| {
    } else if s[k..k + |p|] != p {
      FindFromSpec(s, p, k + 1);
    }
  }

  /** `find` returns -1 exactly when `p` does not occur, and otherwise the
      first index where it does. */
  lemma FindSpec(s: string, p: string)
    ensures Find(s, p) == -1 <==> !Contains(s, p)
    ensures Find(s, p) != -1 ==> IsFirstAt(s, p, Find(s, p))
  {
    FindFromSpec(s, p, 0);
    if Find(s, p) != -1 {
      assert OccursAt(s, p, Find(s, p));
    }
  }

  /** Python's `s.rfind(p)`: the highest index at which `p` occurs, or -1
      (`RFindSpec` states this). */
  function RFind(s: string, p: string): (r: int)
    ensures r == -1 || 0 <= r <= |s| - |p|
  {
    if |s| < |p| then -1 else RFindFrom(s, p, |s| - |p|)
  }

  /** The scan behind `RFind`: the highest index up to `k` at which `p`
      occurs, or -1. */
  function RFindFrom(s: string, p: string, k: nat): (r: int)
    requires k + |p| <= |s|
    ensures r == -1 || 0 <= r <= k
    decreases k
  {
    if s[k..k + |p|] == p then k
    else if k == 0 then -1
    else RFindFrom(s, p, k - 1)
  }

  /** The backward scan from `k` finds the last occurrence at or before
      `k`, and reports -1 only when there is none. */
  lemma {:induction false} RFindFromSpec(s: string, p: string, k: nat)
    requires k + |p| <= |s|
    ensures var r := RFindFrom(s, p, k);
            && (r == -1 ==> forall j :: j <= k ==> !OccursAt(s, p, j))
            && (r != -1 ==> OccursAt(s, p, r) && forall j :: r < j <= k ==> !OccursAt(s, p, j))
    decreases k
  {
    if s[k..k + |p|] != p && k > 0 {
      RFindFromSpec(s, p, k - 1);
    }
  }

  /** `rfind` returns -1 exactly when `p` does not occur, and otherwise the
      last index where it does. */
  lemma RFindSpec(s: string, p: string)
    ensures RFind(s, p) == -1 <==> !Contains(s, p)
    ensures RFind(s, p) != -1 ==> IsLastAt(s, p, RFind(s, p))
  {
    if |s| >= |p| {
      RFindFromSpec(s, p, |s| - |p|);
      if RFind(s, p) != -1 {
        assert OccursAt(s, p, RFind(s, p));
      }
    }
  }

  /** A one-character pattern occurs exactly where that character stands. */
  lemma OccursAtChar(s: string, c: char, i: int)
    ensures OccursAt(s, [c], i) <==> 0 <= i < |s| && s[i] == c
  {
    if 0 <= i < |s| {
      assert s[i..i + 1] == [s[i]];
    }
  }

  /** Python's `c in s` for a one-character string. */
  lemma ContainsChar(s: string, c: char)
    ensures Contains(s, [c]) <==> c in s
  {
    if c in s {
      var i :| 0 <= i < |s| && s[i] == c;
      OccursAtChar(s, c, i);
    }
    forall i | OccursAt(s, [c], i)
      ensures c in s
    {
      OccursAtChar(s, c, i);
    }
  }

  // ---------------------------------------------------------------------
  // Slicing and replacement
  // ---------------------------------------------------------------------

  function Min(a: int, b: int): int {
    if a <= b then a else b
  }

  /** Python's `s[lo:hi]` for non-negative bounds: the upper bound is
      clamped to the length, and the slice is empty once `lo >= hi`. */
  function Slice(s: string, lo: nat, hi: nat): string {
    var h := Min(hi, |s|);
    if lo < h then s[lo..h] else []
  }

  lemma SliceInside(s: string, lo: nat, hi: nat)
    requires lo <= hi <= |s|
    ensures Slice(s, lo, hi) == s[lo..hi]
  {
  }

  lemma SliceCrossed(s: string, lo: nat, hi: nat)
    requires hi < lo
    ensures Slice(s, lo, hi) == []
  {
  }

  /** Appended text does not change a slice that ends inside the original. */
  lemma SliceExtend(s: string, more: string, lo: nat, hi: nat)
    requires hi <= |s|
    ensures Slice(s + more, lo, hi) == Slice(s, lo, hi)
  {
    if lo < hi {
      assert (s + more)[lo..hi] == s[lo..hi];
    }
  }

  /** A piece of a slice is a piece of the whole string. */
  lemma SlicePiece(s: string, lo: nat, hi: nat, t: string)
    requires Contains(Slice(s, lo, hi), t)
    ensures Contains(s, t)
  {
    if |t| == 0 {
      assert OccursAt(s, t, 0);
    } else {
      var piece := Slice(s, lo, hi);
      var k :| OccursAt(piece, t, k);
      var h := Min(hi, |s|);
      assert lo < h && piece == s[lo..h];
      forall m | 0 <= m < |t|
        ensures s[lo + k + m] == t[m]
      {
        assert piece[k..k + |t|][m] == t[m];
        assert piece[k + m] == s[lo + k + m];
      }
      assert s[lo + k..lo + k + |t|] == t;
      assert OccursAt(s, t, lo + k);
    }
  }

  /** A character absent from `s` is absent from every slice of it. */
  lemma SliceWithout(s: string, lo: nat, hi: nat, c: char)
    requires c !in s
    ensures c !in Slice(s, lo, hi)
  {
    if lo < Min(hi, |s|) {
      var t := Slice(s, lo, hi);
      assert forall k :: 0 <= k < |t| ==> t[k] == s[lo + k];
    }
  }

  /** The middle part of a three-part concatenation. */
  lemma MiddlePiece(a: string, b: string, c: string)
    ensures (a + b + c)[|a|..|a| + |b|] == b
  {
  }

  /** Python's `s.replace(old, new)` for one-character `old` and `new`. */
  function Replace(s: string, oldChar: char, newChar: char): (r: string)
    ensures |r| == |s|
    ensures forall i :: 0 <= i < |s| ==> r[i] == (if s[i] == oldChar then newChar else s[i])
  {
    if |s| == 0 then []
    else [if s[0] == oldChar then newChar else s[0]] + Replace(s[1..], oldChar, newChar)
  }

  /** After replacement no `oldChar` is left, unless it is also the `newChar`. */
  lemma ReplaceRemoves(s: string, oldChar: char, newChar: char)
    requires oldChar != newChar
    ensures oldChar !in Replace(s, oldChar, newChar)
  {
    var r := Replace(s, oldChar, newChar);
    forall i | 0 <= i < |r|
      ensures r[i] != oldChar
    {
    }
  }

  /** Replacement distributes over concatenation. */
  lemma ReplaceConcat(a: string, b: string, oldChar: char, newChar: char)
    ensures Replace(a + b, oldChar, newChar) == Replace(a, oldChar, newChar) + Replace(b, oldChar, newChar)
  {
    var l := Replace(a + b, oldChar, newChar);
    var r := Replace(a, oldChar, newChar) + Replace(b, oldChar, newChar);
    assert |l| == |r|;
    forall i | 0 <= i < |l|
      ensures l[i] == r[i]
    {
      if i < |a| {
        assert (a + b)[i] == a[i];
      } else {
        assert (a + b)[i] == b[i - |a|];
      }
    }
  }

  /** Replacing, then slicing, is slicing, then replacing. */
  lemma ReplaceSlice(s: string, lo: nat, hi: nat, oldChar: char, newChar: char)
    requires lo <= hi <= |s|
    ensures Replace(s, oldChar, newChar)[lo..hi] == Replace(s[lo..hi], oldChar, newChar)
  {
    var l := Replace(s, oldChar, newChar)[lo..hi];
    var r := Replace(s[lo..hi], oldChar, newChar);
    forall k | 0 <= k < |l|
      ensures l[k] == r[k]
    {
      assert s[lo..hi][k] == s[lo + k];
    }
  }

  /** Replacing a character that does not occur changes nothing. */
  lemma ReplaceAbsent(s: string, oldChar: char, newChar: char)
    requires oldChar !in s
    ensures Replace(s, oldChar, newChar) == s
  {
    var r := Replace(s, oldChar, newChar);
    assert forall i :: 0 <= i < |s| ==> r[i] == s[i];
  }

  /** A pattern that mentions neither character of a replacement occurs in
      the replaced string exactly where it occurs in the original. */
  lemma ReplaceKeepsOccurrences(s: string, p: string, oldChar: char, newChar: char, i: int)
    requires oldChar !in p && newChar !in p
    ensures OccursAt(Replace(s, oldChar, newChar), p, i) <==> OccursAt(s, p, i)
  {
    var r := Replace(s, oldChar, newChar);
    if 0 <= i && i + |p| <= |s| {
      if r[i..i + |p|] == p {
        forall k | 0 <= k < |p|
          ensures s[i + k] == p[k]
        {
          assert r[i + k] == p[k];
        }
        assert s[i..i + |p|] == p;
      }
      if s[i..i + |p|] == p {
        forall k | 0 <= k < |p|
          ensures r[i + k] == p[k]
        {
          assert s[i + k] == p[k];
        }
        assert r[i..i + |p|] == p;
      }
    }
  }

  // ---------------------------------------------------------------------
  // Whitespace and strip
  // ---------------------------------------------------------------------

  /** The characters Python's `str.isspace` accepts, and so the ones the
      argument-less `str.strip` removes: the ASCII controls TAB..CR and
      FS..US, SPACE, NEL, NO-BREAK SPACE, and the Unicode space separators
      and line/paragraph separators. */
  predicate IsSpace(c: char) {
    || '\U{9}' <= c <= '\U{D}'
    || '\U{1C}' <= c <= '\U{20}'
    || c == '\U{85}' || c == '\U{A0}' || c == '\U{1680}'
    || '\U{2000}' <= c <= '\U{200A}'
    || c == '\U{2028}' || c == '\U{2029}' || c == '\U{202F}' || c == '\U{205F}' || c == '\U{3000}'
  }

  ghost predicate AllSpace(s: string) {
    forall i :: 0 <= i < |s| ==> IsSpace(s[i])
  }

  /** Neither the first nor the last character is whitespace. */
  predicate Trimmed(s: string) {
    |s| == 0 || (!IsSpace(s[0]) && !IsSpace(s[|s| - 1]))
  }

  /** `r` is the part of `s` starting at `a` once only whitespace has been
      cut from both ends. */
  ghost predicate StripsTo(s: string, r: string, a: int) {
    && 0 <= a && a + |r| <= |s|
    && s[a..a + |r|] == r
    && AllSpace(s[..a])
    && AllSpace(s[a + |r|..])
  }

  /** The number of whitespace characters `s` starts with. */
  function LeadingSpace(s: string): (n: nat)
    ensures n <= |s|
    ensures n < |s| ==> !IsSpace(s[n])
  {
    if |s| == 0 || !IsSpace(s[0]) then 0 else 1 + LeadingSpace(s[1..])
  }

  /** Everything `LeadingSpace` counts is whitespace. */
  lemma LeadingAllSpace(s: string)
    ensures forall i :: 0 <= i < LeadingSpace(s) ==> IsSpace(s[i])
  {
    if |s| > 0 && IsSpace(s[0]) {
      LeadingAllSpace(s[1..]);
      assert forall i :: 1 <= i < |s| ==> s[1..][i - 1] == s[i];
    }
  }

  /** The number of whitespace characters `s` ends with. */
  function TrailingSpace(s: string): (n: nat)
    ensures n <= |s|
    ensures n < |s| ==> !IsSpace(s[|s| - n - 1])
  {
    if |s| == 0 || !IsSpace(s[|s| - 1]) then 0 else 1 + TrailingSpace(s[..|s| - 1])
  }

  /** Everything `TrailingSpace` counts is whitespace. */
  lemma TrailingAllSpace(s: string)
    ensures forall i :: |s| - TrailingSpace(s) <= i < |s| ==> IsSpace(s[i])
  {
    if |s| > 0 && IsSpace(s[|s| - 1]) {
      TrailingAllSpace(s[..|s| - 1]);
      assert forall i :: 0 <= i < |s| - 1 ==> s[..|s| - 1][i] == s[i];
    }
  }

  /** Python's `s.lstrip()`. */
  function StripStart(s: string): (r: string)
    ensures |r| <= |s|
    ensures |r| == 0 || !IsSpace(r[0])
  {
    if |s| > 0 && IsSpace(s[0]) then StripStart(s[1..]) else s
  }

  /** Python's `s.rstrip()`. */
  function StripEnd(s: string): (r: string)
    ensures |r| <= |s|
    ensures |r| == 0 || !IsSpace(r[|r| - 1])
    ensures |r| > 0 ==> r[0] == s[0]
  {
    if |s| > 0 && IsSpace(s[|s| - 1]) then StripEnd(s[..|s| - 1]) else s
  }

  /** Python's `s.strip()`. */
  function Strip(s: string): (r: string)
    ensures Trimmed(r)
  {
    StripEnd(StripStart(s))
  }

  /** `lstrip` drops exactly the leading whitespace. */
  lemma {:induction false} StripStartDrops(s: string)
    ensures StripStart(s) == s[LeadingSpace(s)..]
  {
    if |s| > 0 && IsSpace(s[0]) {
      StripStartDrops(s[1..]);
      assert s[1..][LeadingSpace(s[1..])..] == s[LeadingSpace(s)..];
    }
  }

  /** `rstrip` drops exactly the trailing whitespace. */
  lemma {:induction false} StripEndDrops(s: string)
    ensures StripEnd(s) == s[..|s| - TrailingSpace(s)]
  {
    if |s| > 0 && IsSpace(s[|s| - 1]) {
      StripEndDrops(s[..|s| - 1]);
      assert s[..|s| - 1][..|s| - 1 - TrailingSpace(s[..|s| - 1])] == s[..|s| - TrailingSpace(s)];
    }
  }

  /** `strip` keeps what lies between the leading and the trailing
      whitespace. */
  lemma {:induction false} StripIsCut(s: string)
    ensures var a := LeadingSpace(s);
            Strip(s) == s[a..|s| - TrailingSpace(s[a..])]
  {
    var a := LeadingSpace(s);
    var t := s[a..];
    var n := TrailingSpace(t);
    StripStartDrops(s);
    assert StripStart(s) == t;
    StripEndDrops(t);
    assert Strip(s) == t[..|t| - n];
    assert t[..|t| - n] == s[a..|s| - n];
  }

  /** `strip` cuts only whitespace, and only from the two ends. */
  lemma StripShape(s: string)
    ensures exists a :: StripsTo(s, Strip(s), a)
  {
    var a := LeadingSpace(s);
    var t := s[a..];
    var n := TrailingSpace(t);
    LeadingPrefixSpace(s);
    TrailingSuffixSpace(t);
    StripCut(s, a, t, n);
  }

  /** The cut that `Strip` makes leaves whitespace on both sides. */
  lemma StripCut(s: string, a: nat, t: string, n: nat)
    requires a <= |s| && t == s[a..] && n <= |t|
    requires AllSpace(s[..a]) && AllSpace(t[|t| - n..])
    requires a == LeadingSpace(s) && n == TrailingSpace(t)
    ensures StripsTo(s, Strip(s), a)
  {
    var r := s[a..|s| - n];
    StripIsCut(s);
    assert s[a + |r|..] == t[|t| - n..];
  }

  /** The whitespace `LeadingSpace` counts, as a prefix. */
  lemma LeadingPrefixSpace(s: string)
    ensures AllSpace(s[..LeadingSpace(s)])
  {
    var p := s[..LeadingSpace(s)];
    LeadingAllSpace(s);
    forall i | 0 <= i < |p|
      ensures IsSpace(p[i])
    {
      assert p[i] == s[i];
    }
  }

  /** The whitespace `TrailingSpace` counts, as a suffix. */
  lemma TrailingSuffixSpace(s: string)
    ensures AllSpace(s[|s| - TrailingSpace(s)..])
  {
    var k := |s| - TrailingSpace(s);
    var p := s[k..];
    TrailingAllSpace(s);
    forall i | 0 <= i < |p|
      ensures IsSpace(p[i])
    {
      assert p[i] == s[k + i];
    }
  }

  /** `strip` is determined by what it promises: whatever trimmed text is
      left of `s` after cutting whitespace from both ends is `Strip(s)`. */
  lemma StripUnique(s: string, r: string, a: int)
    requires StripsTo(s, r, a) && Trimmed(r)
    ensures Strip(s) == r
  {
    var a0 := LeadingSpace(s);
    var t := s[a0..];
    var n := TrailingSpace(t);
    LeadingAllSpace(s);
    TrailingAllSpace(t);
    StripIsCut(s);
    if |r| == 0 {
      assert forall i :: 0 <= i < |s| ==> IsSpace(s[i]) by {
        forall i | 0 <= i < |s|
          ensures IsSpace(s[i])
        {
          if i < a {
            assert s[..a][i] == s[i];
          } else {
            assert s[a..][i - a] == s[i];
          }
        }
      }
      assert a0 == |s|;
    } else {
      assert s[a] == r[0];
      assert forall i :: 0 <= i < a ==> s[..a][i] == s[i];
      assert a0 == a;
      var b := a + |r|;
      assert s[b - 1] == r[|r| - 1];
      assert forall i :: b <= i < |s| ==> s[b..][i - b] == s[i];
      assert t[|t| - (|s| - b) - 1] == s[b - 1];
      assert n == |s| - b;
    }
  }

  /** What `strip` leaves is a piece of its argument. */
  lemma StripIsPiece(s: string)
    ensures Contains(s, Strip(s))
  {
    var r := Strip(s);
    StripShape(s);
    var a :| StripsTo(s, r, a);
    assert OccursAt(s, r, a);
  }

  /** A stripped slice is a piece of the whole string. */
  lemma StrippedSliceIsPiece(s: string, lo: nat, hi: nat)
    ensures Contains(s, Strip(Slice(s, lo, hi)))
  {
    StripIsPiece(Slice(s, lo, hi));
    SlicePiece(s, lo, hi, Strip(Slice(s, lo, hi)));
  }

  /** Stripping twice is stripping once. */
  lemma StripIdempotent(s: string)
    ensures Strip(Strip(s)) == Strip(s)
  {
    var r := Strip(s);
    assert StripsTo(r, r, 0) by {
      assert r[..0] == [] && r[|r|..] == [];
    }
    StripUnique(r, r, 0);
  }

  /** A string that neither starts nor ends with whitespace is left alone. */
  lemma StripTrimmed(s: string)
    requires Trimmed(s)
    ensures Strip(s) == s
  {
    assert StripsTo(s, s, 0) by {
      assert s[..0] == [] && s[|s|..] == [];
    }
    StripUnique(s, s, 0);
  }

  /** Whitespace added around trimmed text is removed again. */
  lemma StripPadded(lead: string, s: string, trail: string)
    requires AllSpace(lead) && AllSpace(trail) && Trimmed(s)
    ensures Strip(lead + s + trail) == s
  {
    var w := lead + s + trail;
    assert StripsTo(w, s, |lead|) by {
      assert w[..|lead|] == lead;
      assert w[|lead|..|lead| + |s|] == s;
      assert w[|lead| + |s|..] == trail;
    }
    StripUnique(w, s, |lead|);
  }

  // ---------------------------------------------------------------------
  // int(str)
  // ---------------------------------------------------------------------

  predicate IsDigit(c: char) {
    '0' <= c <= '9'
  }

  predicate AllDigits(s: string) {
    forall i :: 0 <= i < |s| ==> IsDigit(s[i])
  }

  /** The value of a string of decimal digits, leading zeros allowed. */
  function DigitsValue(s: string): nat
    requires AllDigits(s)
  {
    if |s| == 0 then 0
    else 10 * DigitsValue(s[..|s| - 1]) + (s[|s| - 1] as int - '0' as int)
  }

  /** The whitespace `int` skips around a number. Below U+007F only the
      ASCII space, `\t`, `\n`, `\v`, `\f` and `\r` count; above it, every
      character `str.isspace` accepts counts. So the separators
      U+001C..U+001F, which `strip` removes, are rejected by `int`. */
  predicate IsIntSpace(c: char) {
    IsSpace(c) && !('\U{1C}' <= c <= '\U{1F}')
  }

  ghost predicate AllIntSpace(s: string) {
    forall i :: 0 <= i < |s| ==> IsIntSpace(s[i])
  }

  /** The leading whitespace `int` skips. */
  function IntStripStart(s: string): (r: string)
    ensures |r| <= |s| && r == s[|s| - |r|..]
    ensures |r| == 0 || !IsIntSpace(r[0])
  {
    if |s| > 0 && IsIntSpace(s[0]) then
      var r := IntStripStart(s[1..]);
      assert s[1..][|s| - 1 - |r|..] == s[|s| - |r|..];
      r
    else s
  }

  /** The trailing whitespace `int` skips. */
  function IntStripEnd(s: string): (r: string)
    ensures |r| <= |s| && r == s[..|r|]
    ensures |r| == 0 || !IsIntSpace(r[|r| - 1])
  {
    if |s| > 0 && IsIntSpace(s[|s| - 1]) then
      var r := IntStripEnd(s[..|s| - 1]);
      assert s[..|s| - 1][..|r|] == s[..|r|];
      r
    else s
  }

  /** Python's `int(s)` for a `str` argument: surrounding whitespace (in the
      sense of `IsIntSpace`) is skipped, an optional sign precedes one or
      more decimal digits, and anything else raises `ValueError`, modelled
      as `None`. */
  function ParseInt(s: string): (r: Option<int>)
    ensures AllSpace(s) ==> r == None
    ensures (forall i :: 0 <= i < |s| ==> !IsDigit(s[i])) ==> r == None
  {
    var u := IntStripStart(s);
    var t := IntStripEnd(u);
    var r := ParseLiteral(t);
    if r.Some? then
      assert t[|t| - 1] == s[|s| - |u| + |t| - 1];
      r
    else r
  }

  /** `int` applied to already stripped text. */
  function ParseLiteral(t: string): (r: Option<int>)
    ensures r.Some? ==> |t| > 0 && IsDigit(t[|t| - 1])
  {
    if |t| == 0 then None
    else if t[0] == '+' || t[0] == '-' then
      var d := t[1..];
      if |d| > 0 && AllDigits(d) then
        var v: int := DigitsValue(d);
        Some(if t[0] == '-' then -v else v)
      else None
    else if AllDigits(t) then Some(DigitsValue(t))
    else None
  }

  /** Python's `str(n)` for a natural number. */
  function Decimal(n: nat): (r: string)
    ensures |r| > 0
  {
    var last := [('0' as int + n % 10) as char];
    if n < 10 then last else Decimal(n / 10) + last
  }

  /** Python's `str(i)` for an integer. */
  function Show(i: int): string {
    if i < 0 then "-" + Decimal(-i) else Decimal(i)
  }

  /** The decimal rendering of `n` is a digit string whose value is `n`. */
  lemma {:induction false} DecimalDigits(n: nat)
    ensures AllDigits(Decimal(n)) && DigitsValue(Decimal(n)) == n
  {
    var d := Decimal(n);
    if n >= 10 {
      DecimalDigits(n / 10);
      assert d[..|d| - 1] == Decimal(n / 10);
    }
  }

  /** The rendering of an integer is a literal `int` reads back. */
  lemma LiteralShow(i: int)
    ensures ParseLiteral(Show(i)) == Some(i)
  {
    var n: nat := if i < 0 then -i else i;
    DecimalDigits(n);
    if i < 0 {
      assert Show(i)[1..] == Decimal(n);
    }
  }

  /** `int(str(i)) == i`, also with whitespace around the number. */
  lemma ParseIntShow(lead: string, i: int, trail: string)
    requires AllIntSpace(lead) && AllIntSpace(trail)
    ensures ParseInt(lead + Show(i) + trail) == Some(i)
  {
    var t := Show(i);
    ShowTrimmed(i);
    assert lead + t + trail == lead + (t + trail);
    IntStripStartPadded(lead, t + trail);
    IntStripEndPadded(t, trail);
    LiteralShow(i);
  }

  /** `int` skips exactly the whitespace placed before text that does not
      start with any. */
  lemma {:induction false} IntStripStartPadded(lead: string, s: string)
    requires AllIntSpace(lead) && |s| > 0 && !IsIntSpace(s[0])
    ensures IntStripStart(lead + s) == s
  {
    if |lead| > 0 {
      assert (lead + s)[1..] == lead[1..] + s;
      IntStripStartPadded(lead[1..], s);
    }
  }

  /** `int` skips exactly the whitespace placed after text that does not
      end with any. */
  lemma {:induction false} IntStripEndPadded(s: string, trail: string)
    requires AllIntSpace(trail) && |s| > 0 && !IsIntSpace(s[|s| - 1])
    ensures IntStripEnd(s + trail) == s
  {
    if |trail| > 0 {
      var w := s + trail;
      assert w[..|w| - 1] == s + trail[..|trail| - 1];
      IntStripEndPadded(s, trail[..|trail| - 1]);
    }
  }

  /** Unlike `strip` (`StripRemovesSeparator`), `int` does not skip the
      separators U+001C..U+001F: a number preceded by one is rejected. */
  lemma {:induction false} IntRejectsSeparator(c: char, i: int)
    requires '\U{1C}' <= c <= '\U{1F}'
    ensures ParseInt([c] + Show(i)) == None
  {
    var w := [c] + Show(i);
    ShowTrimmed(i);
    assert !IsIntSpace(w[0]) && !IsIntSpace(w[|w| - 1]);
    assert IntStripStart(w) == w;
    assert IntStripEnd(w) == w;
    assert !IsDigit(w[0]) && w[0] != '+' && w[0] != '-';
    assert ParseLiteral(w) == None;
  }

  /** `strip` removes a separator U+001C..U+001F before a number. */
  lemma StripRemovesSeparator(c: char, i: int)
    requires '\U{1C}' <= c <= '\U{1F}'
    ensures Strip([c] + Show(i)) == Show(i)
  {
    ShowTrimmed(i);
    StripPadded([c], Show(i), []);
    assert [c] + Show(i) + [] == [c] + Show(i);
  }

  /** The rendering of an integer has no whitespace at either end. */
  lemma ShowTrimmed(i: int)
    ensures Trimmed(Show(i))
  {
    var n: nat := if i < 0 then -i else i;
    var d := Decimal(n);
    var t := Show(i);
    DecimalDigits(n);
    assert IsDigit(d[|d| - 1]);
    assert t[|t| - 1] == d[|d| - 1];
  }
}
