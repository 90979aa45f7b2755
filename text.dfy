/**
  String primitives behind the scripts' regular expressions and string methods:
  the whitespace class `\s`, case-insensitive matching, leftmost
  search, `trim`, `split("\n")[0]` and `replace(/\s+/g, " ")`.
 */
module Text {
  import opened Wrappers

  /** The characters that `\s` matches and `String.prototype.trim` removes: ECMAScript WhiteSpace and LineTerminator. */
  predicate IsSpace(c: char) {
    c == '\t' || c == '\n' || c == '\U{000B}' || c == '\U{000C}' || c == '\r' || c == ' '
    || c == '\U{00A0}' || c == '\U{1680}' || ('\U{2000}' <= c <= '\U{200A}')
    || c == '\U{2028}' || c == '\U{2029}' || c == '\U{202F}' || c == '\U{205F}'
    || c == '\U{3000}' || c == '\U{FEFF}'
  }

  predicate AllSpace(s: string) {
    forall k :: 0 <= k < |s| ==> IsSpace(s[k])
  }

  /**
    Case folding for the `i` flag.  Every pattern the scripts match without
    regard to case is ASCII, and the `i` flag never folds a non-ASCII character
    onto an ASCII one, so folding the ASCII letters is exact here.
   */
  function Lower(c: char): char {
    if 'A' <= c <= 'Z' then (c as int - 'A' as int + 'a' as int) as char else c
  }

  predicate SameIgnoringCase(a: string, b: string) {
    |a| == |b| && forall k :: 0 <= k < |a| ==> Lower(a[k]) == Lower(b[k])
  }

  /** Letter case stays irrelevant when the same text is put around both strings. */
  lemma SameIgnoringCaseFramed(pre: string, a: string, b: string, post: string)
    requires SameIgnoringCase(a, b)
    ensures SameIgnoringCase(pre + a, pre + b)
    ensures SameIgnoringCase(pre + a + post, pre + b + post)
  {
    var x, y := pre + a + post, pre + b + post;
    forall k | 0 <= k < |x|
      ensures Lower(x[k]) == Lower(y[k])
    {
      if |pre| <= k < |pre| + |a| {
        assert x[k] == a[k - |pre|] && y[k] == b[k - |pre|];
      }
    }
  }

  /** `pat` occurs in `s` at index `i`, letters compared without regard to case. */
  predicate MatchesAt(s: string, i: nat, pat: string) {
    i + |pat| <= |s| && forall k :: 0 <= k < |pat| ==> Lower(s[i + k]) == Lower(pat[k])
  }

  lemma MatchesAtIgnoresCase(s: string, i: nat, a: string, b: string)
    requires SameIgnoringCase(a, b)
    ensures MatchesAt(s, i, a) == MatchesAt(s, i, b)
  {
  }

  /** The least index in `[lo, hi)` that satisfies `p`. */
  function FirstIndex(lo: nat, hi: nat, p: nat -> bool): (r: Option<nat>)
    decreases hi - lo
    ensures r.Some? ==> lo <= r.value < hi && p(r.value) && forall k :: lo <= k < r.value ==> !p(k)
    ensures r.None? ==> forall k :: lo <= k < hi ==> !p(k)
  {
    if lo >= hi then None
    else if p(lo) then Some(lo)
    else FirstIndex(lo + 1, hi, p)
  }

  /** An index that satisfies `p` with nothing before it in range is the least witness. */
  lemma FirstIndexIsLeast(lo: nat, hi: nat, p: nat -> bool, k: nat)
    requires lo <= k < hi && p(k)
    requires forall j :: lo <= j < k ==> !p(j)
    ensures FirstIndex(lo, hi, p) == Some(k)
  {
    var r := FirstIndex(lo, hi, p);
    assert r.Some? && !(r.value < k) && !(k < r.value);
  }

  /** Two predicates that agree on `[lo, hi)` have the same least witness there. */
  lemma FirstIndexAgrees(lo: nat, hi: nat, p: nat -> bool, q: nat -> bool)
    requires forall k :: lo <= k < hi ==> p(k) == q(k)
    ensures FirstIndex(lo, hi, p) == FirstIndex(lo, hi, q)
  {
    var a, b := FirstIndex(lo, hi, p), FirstIndex(lo, hi, q);
    if a.Some? && b.Some? {
      assert !(a.value < b.value) && !(b.value < a.value);
    }
  }

  /** `s.indexOf(c, from)`, as an option. */
  function IndexOf(s: string, c: char, from: nat): (r: Option<nat>)
    ensures r.Some? ==> from <= r.value < |s| && s[r.value] == c && forall k :: from <= k < r.value ==> s[k] != c
    ensures r.None? ==> forall k :: from <= k < |s| ==> s[k] != c
  {
    var p := (k: nat) => k < |s| && s[k] == c;
    var r := FirstIndex(from, |s|, p);
    assert forall k: nat :: p(k) <==> k < |s| && s[k] == c;
    r
  }

  /** The leftmost occurrence of `pat` at or after `from`, ignoring case. */
  function FindIgnoringCase(s: string, pat: string, from: nat): (r: Option<nat>)
    ensures r.Some? ==> from <= r.value && MatchesAt(s, r.value, pat) && forall k :: from <= k < r.value ==> !MatchesAt(s, k, pat)
    ensures r.None? ==> forall k :: from <= k ==> !MatchesAt(s, k, pat)
  {
    var p := (k: nat) => MatchesAt(s, k, pat);
    var r := FirstIndex(from, |s| + 1, p);
    assert forall k: nat :: p(k) <==> MatchesAt(s, k, pat);
    r
  }

  /** The leftmost match does not depend on the letter case of the pattern. */
  lemma FindIgnoringCaseAgrees(s: string, a: string, b: string, from: nat)
    requires SameIgnoringCase(a, b)
    ensures FindIgnoringCase(s, a, from) == FindIgnoringCase(s, b, from)
  {
    forall k: nat
      ensures MatchesAt(s, k, a) == MatchesAt(s, k, b)
    {
      MatchesAtIgnoresCase(s, k, a, b);
    }
    var x, y := FindIgnoringCase(s, a, from), FindIgnoringCase(s, b, from);
    if x.Some? && y.Some? {
      assert !(x.value < y.value) && !(y.value < x.value);
    }
  }

  /** The regular expression test `/pat/i.test(s)` for a pattern without metacharacters. */
  predicate ContainsIgnoringCase(s: string, pat: string)
  {
    FindIgnoringCase(s, pat, 0).Some?
  }

  lemma ContainsIgnoringCaseMeans(s: string, pat: string)
    ensures ContainsIgnoringCase(s, pat) <==> exists i: nat :: MatchesAt(s, i, pat)
  {
    var r := FindIgnoringCase(s, pat, 0);
    if r.Some? {
      assert MatchesAt(s, r.value, pat);
    }
  }

  /** The end of the whitespace run that starts at `i`: the first index from `i` on that is not whitespace, or `|s|`. */
  function SpaceRunEnd(s: string, i: nat): (j: nat)
    requires i <= |s|
    decreases |s| - i
    ensures i <= j <= |s|
    ensures forall k :: i <= k < j ==> IsSpace(s[k])
    ensures j < |s| ==> !IsSpace(s[j])
  {
    if i < |s| && IsSpace(s[i]) then SpaceRunEnd(s, i + 1) else i
  }

  /** The start of the whitespace run that ends at `j`, going no lower than `lo`. */
  function SpaceRunStart(s: string, lo: nat, j: nat): (i: nat)
    requires lo <= j <= |s|
    decreases j - lo
    ensures lo <= i <= j
    ensures forall k :: i <= k < j ==> IsSpace(s[k])
    ensures i > lo ==> !IsSpace(s[i - 1])
  {
    if j > lo && IsSpace(s[j - 1]) then SpaceRunStart(s, lo, j - 1) else j
  }

  /** How many characters `trim` drops at the front of `s`. */
  function TrimOffset(s: string): nat
  {
    SpaceRunEnd(s, 0)
  }

  /** `String.prototype.trim`. */
  function Trim(s: string): (r: string)
    ensures TrimOffset(s) + |r| <= |s| && r == s[TrimOffset(s)..TrimOffset(s) + |r|]
    ensures forall k :: 0 <= k < TrimOffset(s) ==> IsSpace(s[k])
    ensures forall k :: TrimOffset(s) + |r| <= k < |s| ==> IsSpace(s[k])
    ensures r == [] || (!IsSpace(r[0]) && !IsSpace(r[|r| - 1]))
    ensures r == [] <==> AllSpace(s)
  {
    var o := SpaceRunEnd(s, 0);
    var e := SpaceRunStart(s, o, |s|);
    assert e == o ==> AllSpace(s);
    s[o..e]
  }

  /** `s.split("\n")[0]`: everything before the first line feed. */
  function FirstLine(s: string): (r: string)
    ensures |r| <= |s| && r == s[..|r|]
    ensures '\n' !in r
    ensures |r| < |s| ==> s[|r|] == '\n'
  {
    match IndexOf(s, '\n', 0)
    case None => s
    case Some(i) => s[..i]
  }

  /** The characters of `s` that are not whitespace, in order. */
  function NonSpace(s: string): string
  {
    if s == [] then []
    else if IsSpace(s[0]) then NonSpace(s[1..])
    else [s[0]] + NonSpace(s[1..])
  }

  lemma {:induction false} NonSpaceAppend(a: string, b: string)
    ensures NonSpace(a + b) == NonSpace(a) + NonSpace(b)
  {
    if a == [] {
      assert a + b == b;
    } else {
      assert (a + b)[0] == a[0];
      assert (a + b)[1..] == a[1..] + b;
      NonSpaceAppend(a[1..], b);
    }
  }

  lemma {:induction false} NonSpaceOfSpaces(s: string)
    requires AllSpace(s)
    ensures NonSpace(s) == []
  {
    if s != [] {
      NonSpaceOfSpaces(s[1..]);
    }
  }

  /** `trim` drops only whitespace: the other characters stay, in order. */
  lemma NonSpaceTrim(s: string)
    ensures NonSpace(Trim(s)) == NonSpace(s)
  {
    var t := Trim(s);
    var o := TrimOffset(s);
    var e := o + |t|;
    assert s == s[..o] + t + s[e..];
    NonSpaceAppend(s[..o] + t, s[e..]);
    NonSpaceAppend(s[..o], t);
    NonSpaceOfSpaces(s[..o]);
    NonSpaceOfSpaces(s[e..]);
  }

  /**
    `s.replace(/\s+/g, " ")`: every maximal run of whitespace becomes a single
    space; nothing else changes.
   */
  function CollapseSpaces(s: string): (r: string)
    decreases |s|
    ensures |r| == 0 <==> |s| == 0
    ensures |s| > 0 ==> (IsSpace(r[0]) <==> IsSpace(s[0])) && (IsSpace(r[|r| - 1]) <==> IsSpace(s[|s| - 1]))
  {
    if |s| == 0 then []
    else if IsSpace(s[0]) then
      var j := SpaceRunEnd(s, 1);
      assert j == |s| ==> IsSpace(s[|s| - 1]);
      assert j < |s| ==> s[j..][|s| - j - 1] == s[|s| - 1];
      [' '] + CollapseSpaces(s[j..])
    else
      [s[0]] + CollapseSpaces(s[1..])
  }

  /** The only whitespace left by `CollapseSpaces` is the plain space, never two in a row. */
  lemma {:induction false} CollapseSpacesSeparates(s: string)
    decreases |s|
    ensures var r := CollapseSpaces(s);
      (forall k :: 0 <= k < |r| && IsSpace(r[k]) ==> r[k] == ' ') &&
      (forall k :: 0 <= k < |r| - 1 ==> !(IsSpace(r[k]) && IsSpace(r[k + 1])))
  {
    if |s| > 0 {
      var r := CollapseSpaces(s);
      var rest: string;
      if IsSpace(s[0]) {
        rest := s[SpaceRunEnd(s, 1)..];
        assert r == [' '] + CollapseSpaces(rest);
        assert rest == [] || !IsSpace(rest[0]);
      } else {
        rest := s[1..];
        assert r == [s[0]] + CollapseSpaces(rest);
      }
      CollapseSpacesSeparates(rest);
      var q := CollapseSpaces(rest);
      assert r == [r[0]] + q;
      assert IsSpace(r[0]) ==> r[0] == ' ' && (q == [] || !IsSpace(q[0]));
      forall k | 0 <= k < |r| && IsSpace(r[k])
        ensures r[k] == ' '
      {
        if k > 0 {
          assert r[k] == q[k - 1];
        }
      }
      forall k | 0 <= k < |r| - 1
        ensures !(IsSpace(r[k]) && IsSpace(r[k + 1]))
      {
        assert r[k + 1] == q[k];
        if k > 0 {
          assert r[k] == q[k - 1];
        }
      }
    }
  }

  /** `CollapseSpaces` keeps every non-whitespace character, in order. */
  lemma {:induction false} CollapseSpacesKeepsText(s: string)
    decreases |s|
    ensures NonSpace(CollapseSpaces(s)) == NonSpace(s)
  {
    if |s| > 0 {
      var r := CollapseSpaces(s);
      if IsSpace(s[0]) {
        var j := SpaceRunEnd(s, 1);
        CollapseSpacesKeepsText(s[j..]);
        assert s == s[..j] + s[j..];
        NonSpaceAppend(s[..j], s[j..]);
        NonSpaceOfSpaces(s[..j]);
        assert r[1..] == CollapseSpaces(s[j..]);
      } else {
        CollapseSpacesKeepsText(s[1..]);
        assert r[1..] == CollapseSpaces(s[1..]);
      }
    }
  }

  /** A whitespace run that the text after it does not continue ends in the same place. */
  lemma {:induction false} SpaceRunEndAppend(a: string, b: string, i: nat)
    requires i <= |a|
    requires SpaceRunEnd(a, i) < |a| || b == [] || !IsSpace(b[0])
    decreases |a| - i
    ensures SpaceRunEnd(a + b, i) == SpaceRunEnd(a, i)
  {
    if i < |a| {
      assert (a + b)[i] == a[i];
      if IsSpace(a[i]) {
        SpaceRunEndAppend(a, b, i + 1);
      }
    } else {
      assert b != [] ==> (a + b)[i] == b[0];
    }
  }

  /**
    Collapsing works run by run: it distributes over a concatenation that does
    not split a whitespace run between its two halves.
   */
  lemma {:induction false} CollapseSpacesAppend(a: string, b: string)
    requires a == [] || b == [] || !IsSpace(a[|a| - 1]) || !IsSpace(b[0])
    decreases |a|
    ensures CollapseSpaces(a + b) == CollapseSpaces(a) + CollapseSpaces(b)
  {
    if a == [] {
      assert a + b == b && CollapseSpaces(a) == [];
    } else if IsSpace(a[0]) {
      var rest := a[SpaceRunEnd(a, 1)..];
      CollapseSpacesRunFirst(a, b);
      assert CollapseSpaces(a) == [' '] + CollapseSpaces(rest);
      assert rest != [] ==> rest[|rest| - 1] == a[|a| - 1];
      CollapseSpacesAppend(rest, b);
      ConcatAssociative([' '], CollapseSpaces(rest), CollapseSpaces(b));
    } else {
      var rest := a[1..];
      CollapseSpacesTextFirst(a, b);
      assert CollapseSpaces(a) == [a[0]] + CollapseSpaces(rest);
      assert rest != [] ==> rest[|rest| - 1] == a[|a| - 1];
      CollapseSpacesAppend(rest, b);
      ConcatAssociative([a[0]], CollapseSpaces(rest), CollapseSpaces(b));
    }
  }

  /**
    Regrouping a concatenation, stated away from the `CollapseSpaces` terms so
    that the step in `CollapseSpacesAppend` stays within the solver's budget.
   */
  lemma ConcatAssociative<T>(x: seq<T>, y: seq<T>, z: seq<T>)
    ensures x + (y + z) == (x + y) + z
  {
  }

  /** A non-whitespace character at the front of `a` comes first in the collapse of `a + b`. */
  lemma {:induction false} CollapseSpacesTextFirst(a: string, b: string)
    requires a != [] && !IsSpace(a[0])
    ensures CollapseSpaces(a + b) == [a[0]] + CollapseSpaces(a[1..] + b)
  {
    assert (a + b)[0] == a[0];
    assert (a + b)[1..] == a[1..] + b;
  }

  /** A whitespace run at the front of `a` that `b` does not continue becomes the space at the front of the collapse of `a + b`. */
  lemma {:induction false} CollapseSpacesRunFirst(a: string, b: string)
    requires a != [] && IsSpace(a[0])
    requires b == [] || !IsSpace(a[|a| - 1]) || !IsSpace(b[0])
    ensures CollapseSpaces(a + b) == [' '] + CollapseSpaces(a[SpaceRunEnd(a, 1)..] + b)
  {
    var j := SpaceRunEnd(a, 1);
    assert j == |a| ==> IsSpace(a[|a| - 1]);
    SpaceRunEndAppend(a, b, 1);
    assert (a + b)[0] == a[0];
    assert (a + b)[j..] == a[j..] + b;
  }

  /** A whole run of whitespace, of any length and kind, becomes one space. */
  lemma CollapseSpacesOfRun(w: string)
    requires w != [] && AllSpace(w)
    ensures CollapseSpaces(w) == " "
  {
    assert SpaceRunEnd(w, 1) == |w|;
  }

  /** Text without whitespace is left as it is. */
  lemma {:induction false} CollapseSpacesOfText(w: string)
    requires forall k :: 0 <= k < |w| ==> !IsSpace(w[k])
    decreases |w|
    ensures CollapseSpaces(w) == w
  {
    if w != [] {
      CollapseSpacesOfText(w[1..]);
    }
  }

  /** Two words separated by any whitespace run come out separated by exactly one space. */
  lemma CollapseSpacesBetweenWords(u: string, w: string, v: string)
    requires forall k :: 0 <= k < |u| ==> !IsSpace(u[k])
    requires forall k :: 0 <= k < |v| ==> !IsSpace(v[k])
    requires w != [] && AllSpace(w)
    ensures CollapseSpaces(u + w + v) == u + " " + v
  {
    CollapseSpacesOfText(u);
    CollapseSpacesOfText(v);
    CollapseSpacesOfRun(w);
    CollapseSpacesAppend(u, w);
    assert (u + w)[|u + w| - 1] == w[|w| - 1];
    CollapseSpacesAppend(u + w, v);
  }
}
