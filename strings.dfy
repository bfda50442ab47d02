/** Text operations the lookup flow relies on, at the ASCII level: lower-casing,
    Python-style whitespace stripping, and case-insensitive substring search. */
module Strings {

  predicate IsUpper(c: char) { 'A' <= c <= 'Z' }

  /** Characters Python's str.isspace accepts in the ASCII range:
      space, \t \n \v \f \r and the separators 0x1C-0x1F. */
  predicate IsSpace(c: char) {
    c == ' ' || (9 <= c as int <= 13) || (28 <= c as int <= 31)
  }

  predicate NoUpper(s: string) { forall i :: 0 <= i < |s| ==> !IsUpper(s[i]) }

  predicate AllSpace(s: string) { forall i :: 0 <= i < |s| ==> IsSpace(s[i]) }

  function LowerChar(c: char): (r: char)
    ensures !IsUpper(r)
    ensures !IsUpper(c) ==> r == c
  {
    if IsUpper(c) then (c as int + 32) as char else c
  }

  /** str.lower restricted to ASCII letters. */
  function Lower(s: string): (r: string)
    ensures |r| == |s|
    ensures forall i :: 0 <= i < |s| ==> r[i] == LowerChar(s[i])
    ensures NoUpper(r)
  {
    if s == [] then [] else [LowerChar(s[0])] + Lower(s[1..])
  }

  lemma LowerNoop(s: string)
    requires NoUpper(s)
    ensures Lower(s) == s
  {
  }

  /** Drops leading whitespace: the result is a suffix of s, everything cut off is
      whitespace, and the result does not itself start with whitespace. */
  function TrimLeft(s: string): (r: string)
    ensures |r| <= |s| && r == s[|s| - |r|..]
    ensures AllSpace(s[..|s| - |r|])
    ensures r == [] || !IsSpace(r[0])
  {
    if s != [] && IsSpace(s[0]) then
      var r := TrimLeft(s[1..]);
      assert s[..|s| - |r|] == [s[0]] + s[1..][..|s| - 1 - |r|];
      r
    else s
  }

  /** Drops trailing whitespace, symmetrically to TrimLeft. */
  function TrimRight(s: string): (r: string)
    ensures |r| <= |s| && r == s[..|r|]
    ensures AllSpace(s[|r|..])
    ensures r == [] || !IsSpace(r[|r| - 1])
  {
    if s != [] && IsSpace(s[|s| - 1]) then
      var r := TrimRight(s[..|s| - 1]);
      assert s[|r|..] == s[..|s| - 1][|r|..] + [s[|s| - 1]];
      r
    else s
  }

  /** str.strip(): the result is the slice s[i..j] left once the whitespace
      before i and after j is removed, and it neither starts nor ends with
      whitespace (which fixes i and j). */
  function Strip(s: string): (r: string)
    ensures r == [] || (!IsSpace(r[0]) && !IsSpace(r[|r| - 1]))
    ensures exists i, j :: 0 <= i <= j <= |s| && r == s[i..j] && AllSpace(s[..i]) && AllSpace(s[j..])
  {
    var t := TrimLeft(s);
    var r := TrimRight(t);
    var i, j := |s| - |t|, |s| - |t| + |r|;
    assert r == s[i..j];
    assert s[j..] == t[|r|..];
    assert r != [] ==> r[0] == t[0];
    r
  }

  lemma TrimLeftNoop(s: string)
    requires s == [] || !IsSpace(s[0])
    ensures TrimLeft(s) == s
  {
  }

  lemma TrimRightNoop(s: string)
    requires s == [] || !IsSpace(s[|s| - 1])
    ensures TrimRight(s) == s
  {
  }

  lemma StripNoop(s: string)
    requires s == [] || (!IsSpace(s[0]) && !IsSpace(s[|s| - 1]))
    ensures Strip(s) == s
  {
    TrimLeftNoop(s);
    TrimRightNoop(s);
  }

  lemma StripIdempotent(s: string)
    ensures Strip(Strip(s)) == Strip(s)
  {
    StripNoop(Strip(s));
  }

  lemma SliceNoUpper(s: string, i: int, j: int)
    requires NoUpper(s) && 0 <= i <= j <= |s|
    ensures NoUpper(s[i..j])
  {
    forall k | 0 <= k < j - i
      ensures !IsUpper(s[i..j][k])
    {
      assert s[i..j][k] == s[i + k];
    }
  }

  /** Column-name normalisation of the loaded sheet: lower-case, then strip.
      The result is the slice of the lower-cased name left once the whitespace
      on both sides is removed. */
  function NormalizeColumn(name: string): (r: string)
    ensures exists i, j ::
              0 <= i <= j <= |name| && r == Lower(name)[i..j] &&
              AllSpace(Lower(name)[..i]) && AllSpace(Lower(name)[j..])
    ensures NoUpper(r)
    ensures r == [] || (!IsSpace(r[0]) && !IsSpace(r[|r| - 1]))
  {
    var l := Lower(name);
    var r := Strip(l);
    var i, j :| 0 <= i <= j <= |l| && r == l[i..j] && AllSpace(l[..i]) && AllSpace(l[j..]);
    SliceNoUpper(l, i, j);
    assert 0 <= i <= j <= |name| && r == l[i..j] && AllSpace(l[..i]) && AllSpace(l[j..]);
    r
  }

  /** Normalising an already normalised name changes nothing. */
  lemma NormalizeColumnIdempotent(name: string)
    ensures NormalizeColumn(NormalizeColumn(name)) == NormalizeColumn(name)
  {
    var r := NormalizeColumn(name);
    LowerNoop(r);
    StripNoop(r);
  }

  /** Normalisation can map two distinct header cells to the same column name. */
  lemma NormalizeColumnCollides()
    ensures NormalizeColumn("Lote") == NormalizeColumn(" lote") == "lote"
  {
    LowerLote();
    LowerNoop(" lote");
    StripNoop("lote");
    StripLeadingBlank();
  }

  lemma LowerLote()
    ensures Lower("Lote") == "lote"
  {
    assert Lower("Lote")[0] == LowerChar('L') == 'l';
  }

  lemma StripLeadingBlank()
    ensures Strip(" lote") == "lote"
  {
    var t := " lote";
    assert t[1..] == "lote";
    TrimLeftNoop("lote");
    assert IsSpace(t[0]);
    assert TrimLeft(t) == TrimLeft(t[1..]);
    TrimRightNoop("lote");
  }

  predicate IsPrefix(p: string, s: string) { |p| <= |s| && s[..|p|] == p }

  /** Literal substring test: n occurs somewhere in h. */
  predicate IsInfix(n: string, h: string)
    decreases |h|
  {
    IsPrefix(n, h) || (h != [] && IsInfix(n, h[1..]))
  }

  ghost predicate OccursAt(n: string, h: string, i: int) {
    0 <= i && i + |n| <= |h| && h[i..i + |n|] == n
  }

  /** An occurrence in the tail of h is an occurrence in h one position later. */
  lemma OccursShift(n: string, h: string, i: int)
    requires h != [] && 0 <= i
    ensures OccursAt(n, h[1..], i) <==> OccursAt(n, h, i + 1)
  {
    if i + |n| <= |h| - 1 {
      assert h[1..][i..i + |n|] == h[i + 1..i + 1 + |n|];
    }
  }

  lemma {:induction false} IsInfixCorrect(n: string, h: string)
    ensures IsInfix(n, h) <==> exists i :: OccursAt(n, h, i)
    decreases |h|
  {
    if IsPrefix(n, h) {
      assert OccursAt(n, h, 0);
    } else if h == [] {
      assert forall i :: !OccursAt(n, h, i);
    } else {
      IsInfixCorrect(n, h[1..]);
      if IsInfix(n, h[1..]) {
        var i :| OccursAt(n, h[1..], i);
        OccursShift(n, h, i);
      } else {
        assert !OccursAt(n, h, 0);
        forall i | 1 <= i
          ensures !OccursAt(n, h, i)
        {
          OccursShift(n, h, i - 1);
        }
      }
    }
  }

  /** Two strings of equal length that agree letter by letter once lower-cased. */
  predicate EqualIgnoringCase(a: string, b: string) {
    |a| == |b| && forall k :: 0 <= k < |a| ==> LowerChar(a[k]) == LowerChar(b[k])
  }

  /** The window of h starting at i equals n up to case. */
  ghost predicate MatchesAt(h: string, n: string, i: int) {
    0 <= i && i + |n| <= |h| && EqualIgnoringCase(h[i..i + |n|], n)
  }

  /** Case-insensitive containment, as lower-cased literal substring search. */
  predicate ContainsIgnoringCase(h: string, n: string) {
    IsInfix(Lower(n), Lower(h))
  }

  /** The search finds n in h exactly when some window of h equals n up to case. */
  lemma ContainsIgnoringCaseCorrect(h: string, n: string)
    ensures ContainsIgnoringCase(h, n) <==> exists i :: MatchesAt(h, n, i)
  {
    var lh, ln := Lower(h), Lower(n);
    IsInfixCorrect(ln, lh);
    forall i | 0 <= i && i + |n| <= |h|
      ensures OccursAt(ln, lh, i) <==> MatchesAt(h, n, i)
    {
      var lw, w := lh[i..i + |n|], h[i..i + |n|];
      assert forall k :: 0 <= k < |n| ==> lw[k] == LowerChar(w[k]);
    }
    if ContainsIgnoringCase(h, n) {
      var i :| OccursAt(ln, lh, i);
      assert MatchesAt(h, n, i);
    }
    if exists i :: MatchesAt(h, n, i) {
      var i :| MatchesAt(h, n, i);
      assert OccursAt(ln, lh, i);
    }
  }
}
