/** Literal, global text substitution: what `s.replace(/pat/g, rep)` does in
    JavaScript when `pat` holds no regular-expression metacharacters and
    `rep` holds no `$` (JavaScript expands `$&`, `$$` and the like in the
    replacement; this model copies `rep` verbatim). The
    string is scanned from the left; at each position where `pat` begins, it
    is replaced by `rep` and the scan resumes after the match, so matches
    never overlap. */
module Substitution {

  /** `s` begins with `prefix`. */
  predicate StartsWith(s: string, prefix: string)
  {
    |prefix| <= |s| && s[..|prefix|] == prefix
  }

  /** `pat` occurs in `s` beginning at index `i`. */
  predicate OccursAt(s: string, pat: string, i: int)
  {
    0 <= i <= |s| && StartsWith(s[i..], pat)
  }

  /** The global literal substitution. */
  function ReplaceAll(s: string, pat: string, rep: string): (r: string)
    requires pat != []
    ensures Count(s, pat) == 0 ==> r == s
    ensures rep == pat ==> r == s
    decreases |s|
  {
    if s == [] then []
    else if StartsWith(s, pat) then rep + ReplaceAll(s[|pat|..], pat, rep)
    else [s[0]] + ReplaceAll(s[1..], pat, rep)
  }

  /** The number of matches the scan of ReplaceAll replaces. */
  function Count(s: string, pat: string): nat
    requires pat != []
    decreases |s|
  {
    if s == [] then 0
    else if StartsWith(s, pat) then 1 + Count(s[|pat|..], pat)
    else Count(s[1..], pat)
  }

  /** The number of positions of `s` at which `pat` begins, overlapping
      occurrences included: an independent count of the occurrences. */
  function Occurrences(s: string, pat: string): nat
    requires pat != []
    decreases |s|
  {
    if s == [] then 0
    else (if StartsWith(s, pat) then 1 else 0) + Occurrences(s[1..], pat)
  }

  /** Helper of CountIsOccurrences: dropping a prefix in which no occurrence
      begins keeps the occurrence count. */
  lemma {:induction false} SkipNoOccurrence(s: string, pat: string, k: nat)
    requires pat != [] && k <= |s|
    requires forall j :: 0 <= j < k ==> !StartsWith(s[j..], pat)
    ensures Occurrences(s, pat) == Occurrences(s[k..], pat)
    decreases k
  {
    if k > 0 {
      assert !StartsWith(s[0..], pat);
      assert s[0..] == s;
      forall j | 0 <= j < k - 1
        ensures !StartsWith(s[1..][j..], pat)
      {
        assert s[1..][j..] == s[j + 1..];
      }
      SkipNoOccurrence(s[1..], pat, k - 1);
      assert s[1..][k - 1..] == s[k..];
    }
  }

  /** For a pattern whose first character does not recur in it, occurrences
      cannot overlap, so the scan's match count is the number of positions at
      which the pattern occurs. */
  lemma {:induction false} CountIsOccurrences(s: string, pat: string)
    requires pat != [] && pat[0] !in pat[1..]
    ensures Count(s, pat) == Occurrences(s, pat)
    decreases |s|
  {
    if s == [] {
    } else if StartsWith(s, pat) {
      var rest := s[1..];
      forall j | 0 <= j < |pat| - 1
        ensures !StartsWith(rest[j..], pat)
      {
        assert rest[j..][0] == s[j + 1] == pat[j + 1] == pat[1..][j];
      }
      SkipNoOccurrence(rest, pat, |pat| - 1);
      assert rest[|pat| - 1..] == s[|pat|..];
      CountIsOccurrences(s[|pat|..], pat);
    } else {
      CountIsOccurrences(s[1..], pat);
    }
  }

  /** No occurrence of `pat` can begin inside `a`, whatever text follows it:
      no suffix of `a` starts with `pat` or is a beginning of `pat`. */
  predicate NoMatchStartsIn(a: string, pat: string)
  {
    forall i :: 0 <= i < |a| ==> !StartsWith(a[i..], pat) && !StartsWith(pat, a[i..])
  }

  /** Starting with a non-empty prefix, one character at a time. */
  lemma StartsWithCons(s: string, w: string)
    requires s != [] && w != []
    ensures StartsWith(s, w) <==> s[0] == w[0] && StartsWith(s[1..], w[1..])
  {
    if s[0] == w[0] && StartsWith(s[1..], w[1..]) {
      assert s[..|w|] == [s[0]] + s[1..][..|w| - 1];
      assert w == [w[0]] + w[1..];
    }
  }

  /** Each match grows or shrinks the text by the difference in length
      between the replacement and the pattern. */
  lemma {:induction false} LengthAfterReplace(s: string, pat: string, rep: string)
    requires pat != []
    ensures |ReplaceAll(s, pat, rep)| == |s| + Count(s, pat) * (|rep| - |pat|)
    decreases |s|
  {
    if s == [] {
    } else if StartsWith(s, pat) {
      var rest := s[|pat|..];
      LengthAfterReplace(rest, pat, rep);
      assert |ReplaceAll(s, pat, rep)| == |rep| + |ReplaceAll(rest, pat, rep)|;
      assert |s| == |pat| + |rest|;
      OneMoreMatch(Count(rest, pat), |rep| - |pat|);
    } else {
      LengthAfterReplace(s[1..], pat, rep);
    }
  }

  /** Helper of LengthAfterReplace: one more match adds one more difference. */
  lemma OneMoreMatch(c: int, d: int)
    ensures (1 + c) * d == d + c * d
  {
  }

  /** The scan replaces nothing exactly when the pattern occurs nowhere
      (in particular no occurrence is hidden by an earlier match). */
  lemma {:induction false} CountZeroIffAbsent(s: string, pat: string)
    requires pat != []
    ensures Count(s, pat) == 0 <==> forall i :: !OccursAt(s, pat, i)
    decreases |s|
  {
    if s != [] {
      CountZeroIffAbsent(s[1..], pat);
      assert s[0..] == s;
      forall i | 0 <= i <= |s| - 1
        ensures OccursAt(s[1..], pat, i) <==> OccursAt(s, pat, i + 1)
      {
        assert s[1..][i..] == s[i + 1..];
      }
      if Count(s, pat) == 0 {
        forall i ensures !OccursAt(s, pat, i) {
          if 1 <= i {
            assert !OccursAt(s[1..], pat, i - 1);
          }
        }
      } else if !StartsWith(s, pat) {
        var j :| OccursAt(s[1..], pat, j);
        assert OccursAt(s, pat, j + 1);
      } else {
        assert OccursAt(s, pat, 0);
      }
    }
  }

  /** Text in which the pattern does not occur is returned unchanged. */
  lemma UnchangedWhenAbsent(s: string, pat: string, rep: string)
    requires pat != []
    requires forall i :: !OccursAt(s, pat, i)
    ensures ReplaceAll(s, pat, rep) == s
  {
    CountZeroIffAbsent(s, pat);
  }

  /** An occurrence cannot begin inside text that NoMatchStartsIn protects,
      whatever follows it. */
  lemma NoMatchBeyond(a: string, z: string, pat: string, i: int)
    requires NoMatchStartsIn(a, pat) && 0 <= i < |a|
    ensures !StartsWith(a[i..] + z, pat)
  {
    var x := a[i..];
    assert !StartsWith(x, pat) && !StartsWith(pat, x);
    if |pat| <= |x| {
      assert (x + z)[..|pat|] == x[..|pat|];
    }
  }

  /** Protected text in front of the rest is copied, and adds no match. */
  lemma {:induction false} SkipTransparent(a: string, b: string, pat: string, rep: string)
    requires pat != [] && NoMatchStartsIn(a, pat)
    ensures ReplaceAll(a + b, pat, rep) == a + ReplaceAll(b, pat, rep)
    ensures Count(a + b, pat) == Count(b, pat)
    decreases |a|
  {
    if a == [] {
      assert a + b == b;
    } else {
      NoMatchBeyond(a, b, pat, 0);
      assert a[0..] == a;
      assert (a + b)[1..] == a[1..] + b;
      forall i | 0 <= i < |a[1..]|
        ensures !StartsWith(a[1..][i..], pat) && !StartsWith(pat, a[1..][i..])
      {
        assert a[1..][i..] == a[i + 1..];
      }
      SkipTransparent(a[1..], b, pat, rep);
    }
  }

  /** Text without the pattern's first character is protected. */
  lemma FreeTransparent(a: string, pat: string)
    requires pat != [] && pat[0] !in a
    ensures NoMatchStartsIn(a, pat)
  {
    forall i | 0 <= i < |a|
      ensures !StartsWith(a[i..], pat) && !StartsWith(pat, a[i..])
    {
      assert a[i..][0] == a[i];
    }
  }

  /** Text whose first character begins the pattern is still protected when it
      differs from the pattern at some position `k` and the pattern's first
      character does not come back later in it. */
  lemma MismatchTransparent(a: string, pat: string, k: int)
    requires 0 < k < |a| && k < |pat| && a[k] != pat[k]
    requires pat[0] !in a[1..]
    ensures NoMatchStartsIn(a, pat)
  {
    forall i | 0 <= i < |a|
      ensures !StartsWith(a[i..], pat) && !StartsWith(pat, a[i..])
    {
      if i == 0 {
        assert a[i..] == a;
      } else {
        assert a[i..][0] == a[1..][i - 1];
      }
    }
  }

  /** Protection is kept under concatenation. */
  lemma TransparentConcat(a: string, b: string, pat: string)
    requires NoMatchStartsIn(a, pat) && NoMatchStartsIn(b, pat)
    ensures NoMatchStartsIn(a + b, pat)
  {
    forall i | 0 <= i < |a + b|
      ensures !StartsWith((a + b)[i..], pat) && !StartsWith(pat, (a + b)[i..])
    {
      if i < |a| {
        assert (a + b)[i..] == a[i..] + b;
        NoMatchBeyond(a, b, pat, i);
        assert !StartsWith(pat, a[i..]);
      } else {
        assert (a + b)[i..] == b[i - |a|..];
      }
    }
  }

  /** The first character of the output: the replacement's on a match, the
      input's otherwise. */
  lemma FirstOutput(x: string, pat: string, rep: string)
    requires pat != [] && rep != [] && x != []
    ensures ReplaceAll(x, pat, rep)[0] == if StartsWith(x, pat) then rep[0] else x[0]
  {
  }

  /** An occurrence begins with the pattern's first character. */
  lemma OccursAtHead(s: string, pat: string, i: int)
    requires pat != [] && OccursAt(s, pat, i)
    ensures i < |s| && s[i] == pat[0]
  {
    assert s[i..][0] == s[i];
  }

  /** A replacement whose first character is absent from `w` never begins a
      `w`: the output starts with `w` only when the input already did. */
  lemma {:induction false} PrefixReflected(x: string, pat: string, rep: string, w: string)
    requires pat != [] && rep != [] && rep[0] !in w
    requires StartsWith(ReplaceAll(x, pat, rep), w)
    ensures StartsWith(x, w)
    decreases |x|
  {
    if w != [] && x != [] {
      var out := ReplaceAll(x, pat, rep);
      StartsWithCons(out, w);
      StartsWithCons(x, w);
      FirstOutput(x, pat, rep);
      assert out[1..] == ReplaceAll(x[1..], pat, rep);
      PrefixReflected(x[1..], pat, rep, w[1..]);
    }
  }

  /** Every occurrence of `pat` in `out` is immediately followed by `m`. */
  ghost predicate AllFollowedBy(out: string, pat: string, m: string)
  {
    forall i :: OccursAt(out, pat, i) ==> StartsWith(out[i + |pat|..], m)
  }

  /** Every occurrence of `pat` in `out` is immediately preceded by `pre`. */
  ghost predicate AllPrecededBy(out: string, pat: string, pre: string)
  {
    forall i :: OccursAt(out, pat, i) ==> |pre| <= i && out[i - |pre|..i] == pre
  }

  /** An occurrence after a prefix `a` is an occurrence in the rest. */
  lemma OccursPastPrefix(a: string, rest: string, pat: string, i: int)
    requires |a| <= i && OccursAt(a + rest, pat, i)
    ensures OccursAt(rest, pat, i - |a|) && (a + rest)[i..] == rest[i - |a|..]
  {
    assert (a + rest)[i..] == rest[i - |a|..];
  }

  /** A copied character cannot begin an occurrence when the input did not
      start with the pattern and the replacement cannot begin the pattern's
      tail. */
  lemma CopiedHeadStartsNoMatch(s: string, pat: string, rep: string)
    requires pat != [] && rep != [] && rep[0] !in pat[1..]
    requires s != [] && !StartsWith(s, pat)
    ensures !OccursAt([s[0]] + ReplaceAll(s[1..], pat, rep), pat, 0)
  {
    var out := [s[0]] + ReplaceAll(s[1..], pat, rep);
    assert out[0..] == out && out[1..] == ReplaceAll(s[1..], pat, rep);
    StartsWithCons(out, pat);
    StartsWithCons(s, pat);
    if StartsWith(ReplaceAll(s[1..], pat, rep), pat[1..]) {
      PrefixReflected(s[1..], pat, rep, pat[1..]);
    }
  }

  /** Helper of FollowedByInsertion: the step over a match. */
  lemma FollowedAfterMatch(rest: string, pat: string, m: string)
    requires pat != [] && pat[0] !in pat[1..] && pat[0] !in m
    requires AllFollowedBy(rest, pat, m)
    ensures AllFollowedBy(pat + m + rest, pat, m)
  {
    var out := pat + m + rest;
    forall j | 0 < j < |pat| + |m|
      ensures out[j] != pat[0]
    {
      if j < |pat| {
        assert out[j] == pat[1..][j - 1];
      } else {
        assert out[j] == m[j - |pat|];
      }
    }
    forall i | OccursAt(out, pat, i)
      ensures StartsWith(out[i + |pat|..], m)
    {
      OccursAtHead(out, pat, i);
      if i == 0 {
        assert out[|pat|..] == m + rest;
      } else {
        OccursPastPrefix(pat + m, rest, pat, i);
        assert out[i + |pat|..] == rest[i - |pat| - |m| + |pat|..];
      }
    }
  }

  /** Helper of FollowedByInsertion: the step over a copied character. */
  lemma FollowedAfterCopy(s: string, pat: string, m: string)
    requires pat != [] && pat[0] !in pat[1..]
    requires s != [] && !StartsWith(s, pat)
    requires AllFollowedBy(ReplaceAll(s[1..], pat, pat + m), pat, m)
    ensures AllFollowedBy([s[0]] + ReplaceAll(s[1..], pat, pat + m), pat, m)
  {
    var rest := ReplaceAll(s[1..], pat, pat + m);
    var out := [s[0]] + rest;
    CopiedHeadStartsNoMatch(s, pat, pat + m);
    forall i | OccursAt(out, pat, i)
      ensures StartsWith(out[i + |pat|..], m)
    {
      OccursPastPrefix([s[0]], rest, pat, i);
      assert out[i + |pat|..] == rest[i - 1 + |pat|..];
    }
  }

  /** When every replacement is the pattern followed by an insertion `m`,
      every occurrence of the pattern in the output is followed by `m`. */
  lemma {:induction false} FollowedByInsertion(s: string, pat: string, m: string)
    requires pat != [] && pat[0] !in pat[1..] && pat[0] !in m
    ensures AllFollowedBy(ReplaceAll(s, pat, pat + m), pat, m)
    decreases |s|
  {
    if s == [] {
    } else if StartsWith(s, pat) {
      FollowedByInsertion(s[|pat|..], pat, m);
      FollowedAfterMatch(ReplaceAll(s[|pat|..], pat, pat + m), pat, m);
    } else {
      FollowedByInsertion(s[1..], pat, m);
      FollowedAfterCopy(s, pat, m);
    }
  }

  /** Helper of PrecededAfterMatch: no occurrence begins inside `pre`. */
  lemma NoOccurrenceInPre(pre: string, pat: string, rest: string)
    requires NoMatchStartsIn(pre, pat)
    ensures forall j :: 0 <= j < |pre| ==> !OccursAt(pre + pat + rest, pat, j)
  {
    forall j | 0 <= j < |pre|
      ensures !OccursAt(pre + pat + rest, pat, j)
    {
      assert (pre + pat + rest)[j..] == pre[j..] + (pat + rest);
      NoMatchBeyond(pre, pat + rest, pat, j);
    }
  }

  /** Helper of PrecededAfterMatch: the pattern's first character does not
      come back inside the inserted pattern. */
  lemma NoHeadInsidePattern(pre: string, pat: string, rest: string)
    requires pat != [] && pat[0] !in pat[1..]
    ensures forall j :: |pre| < j < |pre| + |pat| ==> (pre + pat + rest)[j] != pat[0]
  {
    forall j | |pre| < j < |pre| + |pat|
      ensures (pre + pat + rest)[j] != pat[0]
    {
      assert (pre + pat + rest)[j] == pat[1..][j - |pre| - 1];
    }
  }

  /** Helper of PrecededByInsertion: the step over a match. */
  lemma PrecededAfterMatch(rest: string, pat: string, pre: string)
    requires pat != [] && pat[0] !in pat[1..] && NoMatchStartsIn(pre, pat)
    requires AllPrecededBy(rest, pat, pre)
    ensures AllPrecededBy(pre + pat + rest, pat, pre)
  {
    var out := pre + pat + rest;
    NoOccurrenceInPre(pre, pat, rest);
    NoHeadInsidePattern(pre, pat, rest);
    forall i | OccursAt(out, pat, i)
      ensures |pre| <= i && out[i - |pre|..i] == pre
    {
      OccursAtHead(out, pat, i);
      if i == |pre| {
        assert out[..|pre|] == pre;
      } else {
        OccursPastPrefix(pre + pat, rest, pat, i);
        var j := i - |pre| - |pat|;
        assert out[i - |pre|..i] == rest[j - |pre|..j];
      }
    }
  }

  /** Helper of PrecededByInsertion: the step over a copied character. */
  lemma PrecededAfterCopy(s: string, pat: string, pre: string)
    requires pat != [] && (pre + pat)[0] !in pat[1..]
    requires s != [] && !StartsWith(s, pat)
    requires AllPrecededBy(ReplaceAll(s[1..], pat, pre + pat), pat, pre)
    ensures AllPrecededBy([s[0]] + ReplaceAll(s[1..], pat, pre + pat), pat, pre)
  {
    var rest := ReplaceAll(s[1..], pat, pre + pat);
    var out := [s[0]] + rest;
    CopiedHeadStartsNoMatch(s, pat, pre + pat);
    forall i | OccursAt(out, pat, i)
      ensures |pre| <= i && out[i - |pre|..i] == pre
    {
      OccursPastPrefix([s[0]], rest, pat, i);
      assert out[i - |pre|..i] == rest[i - 1 - |pre|..i - 1];
    }
  }

  /** When every replacement is a protected insertion `pre` followed by the
      pattern, every occurrence of the pattern in the output is immediately
      preceded by `pre`. */
  lemma {:induction false} PrecededByInsertion(s: string, pat: string, pre: string)
    requires pat != [] && pat[0] !in pat[1..] && NoMatchStartsIn(pre, pat)
    requires (pre + pat)[0] !in pat[1..]
    ensures AllPrecededBy(ReplaceAll(s, pat, pre + pat), pat, pre)
    decreases |s|
  {
    if s == [] {
    } else if StartsWith(s, pat) {
      PrecededByInsertion(s[|pat|..], pat, pre);
      PrecededAfterMatch(ReplaceAll(s[|pat|..], pat, pre + pat), pat, pre);
    } else {
      PrecededByInsertion(s[1..], pat, pre);
      PrecededAfterCopy(s, pat, pre);
    }
  }

  /** Inserting protected text before each match keeps the number of matches. */
  lemma {:induction false} InsertionKeepsCount(s: string, pat: string, pre: string)
    requires pat != [] && NoMatchStartsIn(pre, pat)
    requires (pre + pat)[0] !in pat[1..]
    ensures Count(ReplaceAll(s, pat, pre + pat), pat) == Count(s, pat)
    decreases |s|
  {
    if s == [] {
    } else if StartsWith(s, pat) {
      var rest := ReplaceAll(s[|pat|..], pat, pre + pat);
      InsertionKeepsCount(s[|pat|..], pat, pre);
      assert ReplaceAll(s, pat, pre + pat) == pre + (pat + rest);
      SkipTransparent(pre, pat + rest, pat, pat);
      assert (pat + rest)[..|pat|] == pat && (pat + rest)[|pat|..] == rest;
    } else {
      var out := ReplaceAll(s, pat, pre + pat);
      var rest := ReplaceAll(s[1..], pat, pre + pat);
      InsertionKeepsCount(s[1..], pat, pre);
      assert out == [s[0]] + rest && out[1..] == rest;
      StartsWithCons(out, pat);
      StartsWithCons(s, pat);
      assert !StartsWith(out, pat) by {
        if StartsWith(out, pat) {
          PrefixReflected(s[1..], pat, pre + pat, pat[1..]);
        }
      }
    }
  }

  /** Both substitutions performed in one left-to-right scan, `p` tried
      before `q`. */
  function ReplaceBoth(s: string, p: string, r: string, q: string, t: string): string
    requires p != [] && q != []
    decreases |s|
  {
    if s == [] then []
    else if StartsWith(s, p) then r + ReplaceBoth(s[|p|..], p, r, q, t)
    else if StartsWith(s, q) then t + ReplaceBoth(s[|q|..], p, r, q, t)
    else [s[0]] + ReplaceBoth(s[1..], p, r, q, t)
  }

  /** With patterns that start differently, which one is tried first in the
      single scan does not matter. */
  lemma {:induction false} ReplaceBothSymmetric(s: string, p: string, r: string, q: string, t: string)
    requires p != [] && q != [] && p[0] != q[0]
    ensures ReplaceBoth(s, p, r, q, t) == ReplaceBoth(s, q, t, p, r)
    decreases |s|
  {
    if s != [] {
      StartsWithCons(s, p);
      StartsWithCons(s, q);
      if StartsWith(s, p) {
        ReplaceBothSymmetric(s[|p|..], p, r, q, t);
      } else if StartsWith(s, q) {
        ReplaceBothSymmetric(s[|q|..], p, r, q, t);
      } else {
        ReplaceBothSymmetric(s[1..], p, r, q, t);
      }
    }
  }

  /** Substituting `p` and then `q` is the single scan that replaces both,
      provided neither substitution can create or hide a match of the other. */
  lemma {:induction false} SequentialIsSimultaneous(s: string, p: string, r: string, q: string, t: string)
    requires p != [] && q != [] && r != []
    requires p[0] !in q && q[0] !in r && r[0] !in q
    ensures ReplaceAll(ReplaceAll(s, p, r), q, t) == ReplaceBoth(s, p, r, q, t)
    decreases |s|
  {
    if s != [] {
      var f := ReplaceAll(s, p, r);
      if StartsWith(s, p) {
        var f1 := ReplaceAll(s[|p|..], p, r);
        assert f == r + f1;
        FreeTransparent(r, q);
        SkipTransparent(r, f1, q, t);
        SequentialIsSimultaneous(s[|p|..], p, r, q, t);
      } else if StartsWith(s, q) {
        var f2 := ReplaceAll(s[|q|..], p, r);
        assert s == q + s[|q|..];
        FreeTransparent(q, p);
        SkipTransparent(q, s[|q|..], p, r);
        assert f == q + f2;
        assert (q + f2)[..|q|] == q && (q + f2)[|q|..] == f2;
        SequentialIsSimultaneous(s[|q|..], p, r, q, t);
      } else {
        var f1 := ReplaceAll(s[1..], p, r);
        assert f == [s[0]] + f1 && f[1..] == f1;
        StartsWithCons(f, q);
        StartsWithCons(s, q);
        assert !StartsWith(f, q) by {
          if StartsWith(f, q) {
            PrefixReflected(s[1..], p, r, q[1..]);
          }
        }
        SequentialIsSimultaneous(s[1..], p, r, q, t);
      }
    }
  }

  /** Two substitutions commute when neither pattern's first character
      occurs in the other pattern or in the other's replacement, and each
      replacement begins with a character the other pattern lacks. */
  lemma ReplacementsCommute(s: string, p: string, r: string, q: string, t: string)
    requires p != [] && q != [] && r != [] && t != []
    requires p[0] !in q && q[0] !in p
    requires q[0] !in r && p[0] !in t
    requires r[0] !in q && t[0] !in p
    ensures ReplaceAll(ReplaceAll(s, p, r), q, t) == ReplaceAll(ReplaceAll(s, q, t), p, r)
  {
    SequentialIsSimultaneous(s, p, r, q, t);
    SequentialIsSimultaneous(s, q, t, p, r);
    ReplaceBothSymmetric(s, p, r, q, t);
  }
}
