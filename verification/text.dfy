/**
 Plain string helpers: prefix test, character counting, and a model of
 Python's `str.replace(old, new)` (every non-overlapping occurrence of `old`,
 found scanning left to right, is replaced by `new`).
 */
module Text {
  import opened Wrappers

  /** True when `p` is a prefix of `s`. */
  predicate StartsWith(s: string, p: string) {
    |p| <= |s| && s[..|p|] == p
  }

  /** A string whose first character differs from the pattern's does not start with it. */
  lemma NotStartsWithHead(s: string, p: string)
    requires |p| > 0 && (|s| == 0 || s[0] != p[0])
    ensures !StartsWith(s, p)
  {
    if |p| <= |s| {
      assert s[..|p|][0] == s[0];
    }
  }

  /** A string that differs from the pattern at some position inside both does not start with it. */
  lemma NotStartsWithAt(s: string, p: string, k: nat)
    requires k < |p| && k < |s| && s[k] != p[k]
    ensures !StartsWith(s, p)
  {
    if |p| <= |s| {
      assert s[..|p|][k] == s[k];
    }
  }

  /** A string of two or more characters is its first character, its middle and its last character. */
  lemma Reframe(s: string)
    requires |s| >= 2
    ensures s == [s[0]] + s[1..|s| - 1] + [s[|s| - 1]]
  {
    var t := [s[0]] + s[1..|s| - 1] + [s[|s| - 1]];
    assert |t| == |s|;
    forall i | 0 <= i < |s|
      ensures t[i] == s[i]
    {
      if 0 < i < |s| - 1 {
        assert t[i] == s[1..|s| - 1][i - 1];
      }
    }
  }

  /** True when `pat` occurs somewhere in `s` (at any start position). */
  predicate Occurs(s: string, pat: string) {
    exists i :: 0 <= i <= |s| && StartsWith(s[i..], pat)
  }

  /**
   Splits `s` at the first occurrence of `c`: the part before it and the part
   after it, or `None` when `c` does not occur.
   */
  function SplitAt(s: string, c: char): (r: Option<(string, string)>)
    ensures r.None? <==> c !in s
    ensures r.Some? ==> s == r.value.0 + [c] + r.value.1 && c !in r.value.0
  {
    if |s| == 0 then None
    else if s[0] == c then Some(([], s[1..]))
    else match SplitAt(s[1..], c)
      case None => None
      case Some(p) => Some(([s[0]] + p.0, p.1))
  }

  /** Splitting a joined string at a character absent from the first part recovers both parts. */
  lemma {:induction false} SplitAtJoin(a: string, c: char, b: string)
    requires c !in a
    ensures SplitAt(a + [c] + b, c) == Some((a, b))
  {
    if |a| == 0 {
      assert a + [c] + b == [c] + b;
      assert ([c] + b)[1..] == b;
    } else {
      assert c !in a[1..] by {
        assert forall i :: 0 <= i < |a[1..]| ==> a[1..][i] == a[i + 1];
      }
      SplitAtJoin(a[1..], c, b);
      assert (a + [c] + b)[1..] == a[1..] + [c] + b;
      assert a == [a[0]] + a[1..];
    }
  }

  /**
   Splits `s` at the last occurrence of `c`: the part before it and the part
   after it, or `None` when `c` does not occur.
   */
  function SplitAtLast(s: string, c: char): (r: Option<(string, string)>)
    ensures r.None? <==> c !in s
    ensures r.Some? ==> s == r.value.0 + [c] + r.value.1 && c !in r.value.1
    decreases |s|
  {
    if |s| == 0 then None
    else if s[|s| - 1] == c then Some((s[..|s| - 1], []))
    else match SplitAtLast(s[..|s| - 1], c)
      case None => None
      case Some(p) => Some((p.0, p.1 + [s[|s| - 1]]))
  }

  /** Splitting a joined string at a character absent from the second part recovers both parts. */
  lemma {:induction false} SplitAtLastJoin(a: string, c: char, b: string)
    requires c !in b
    ensures SplitAtLast(a + [c] + b, c) == Some((a, b))
    decreases |b|
  {
    var s := a + [c] + b;
    if |b| == 0 {
      assert s[..|s| - 1] == a;
    } else {
      var b' := b[..|b| - 1];
      assert c !in b' by {
        assert forall i :: 0 <= i < |b'| ==> b'[i] == b[i];
      }
      SplitAtLastJoin(a, c, b');
      assert s[..|s| - 1] == a + [c] + b';
      assert s[|s| - 1] == b[|b| - 1];
      assert b == b' + [b[|b| - 1]];
    }
  }

  /** Number of occurrences of the character `c` in `s`. */
  function Count(s: string, c: char): (n: nat)
    ensures n <= |s|
    ensures n == 0 <==> c !in s
  {
    if |s| == 0 then 0
    else (if s[0] == c then 1 else 0) + Count(s[1..], c)
  }

  lemma {:induction false} CountConcat(a: string, b: string, c: char)
    ensures Count(a + b, c) == Count(a, c) + Count(b, c)
  {
    if |a| == 0 {
      assert a + b == b;
    } else {
      assert (a + b)[1..] == a[1..] + b;
      CountConcat(a[1..], b, c);
    }
  }

  /**
   `s.replace("", rep)` in Python: `rep` is inserted before every character
   and once more at the end.
   */
  function InsertAround(s: string, rep: string): (r: string)
    ensures |r| == |rep| + |s| * (|rep| + 1)
    ensures |r| > 0 <==> |s| > 0 || |rep| > 0
  {
    if |s| == 0 then rep
    else rep + [s[0]] + InsertAround(s[1..], rep)
  }

  /**
   `s.replace(pat, rep)` in Python: the leftmost occurrence of `pat` is
   replaced first and scanning resumes after it, so occurrences never overlap.
   */
  function ReplaceAll(s: string, pat: string, rep: string): (r: string)
    ensures |pat| > 0 && |rep| == |pat| ==> |r| == |s|
    ensures |pat| > 0 && |rep| <= |pat| ==> |r| <= |s|
    ensures |s| > 0 && |rep| > 0 ==> |r| > 0
    ensures |pat| > 0 && |s| == 0 ==> r == []
    decreases |s|
  {
    if |pat| == 0 then InsertAround(s, rep)
    else if |s| == 0 then []
    else if StartsWith(s, pat) then rep + ReplaceAll(s[|pat|..], pat, rep)
    else [s[0]] + ReplaceAll(s[1..], pat, rep)
  }

  /** Replacing a pattern that does not occur leaves the string unchanged. */
  lemma {:induction false} ReplaceAllAbsent(s: string, pat: string, rep: string)
    requires |pat| > 0
    requires !Occurs(s, pat)
    ensures ReplaceAll(s, pat, rep) == s
    decreases |s|
  {
    if |s| > 0 {
      assert s[0..] == s;
      assert !StartsWith(s, pat);
      assert !Occurs(s[1..], pat) by {
        forall i | 0 <= i <= |s[1..]|
          ensures !StartsWith(s[1..][i..], pat)
        {
          assert s[1..][i..] == s[i + 1..];
        }
      }
      ReplaceAllAbsent(s[1..], pat, rep);
    }
  }

  /** A string shorter than the pattern is left unchanged. */
  lemma {:induction false} ReplaceAllShort(s: string, pat: string, rep: string)
    requires |s| < |pat|
    ensures ReplaceAll(s, pat, rep) == s
    decreases |s|
  {
    if |s| > 0 {
      ReplaceAllShort(s[1..], pat, rep);
      assert s == [s[0]] + s[1..];
    }
  }

  /** The pattern alone is replaced by exactly the replacement. */
  lemma ReplaceAllWhole(pat: string, rep: string)
    requires |pat| > 0
    ensures ReplaceAll(pat, pat, rep) == rep
  {
    assert StartsWith(pat, pat);
    assert pat[|pat|..] == [];
    assert rep + [] == rep;
  }

  /** True when an occurrence of `pat` starts at position `i` of `s`. */
  predicate MatchAt(s: string, pat: string, i: nat)
    requires i <= |s|
  {
    StartsWith(s[i..], pat)
  }

  /** No occurrence of `pat` starts at a position before `k` in `s`. */
  predicate NoMatchBefore(s: string, pat: string, k: nat) {
    forall i: nat :: i < k && i <= |s| ==> !MatchAt(s, pat, i)
  }

  /** Dropping the first character keeps the positions before `k` free of occurrences. */
  lemma NoMatchBeforeTail(s: string, pat: string, k: nat)
    requires 0 < k <= |s| && NoMatchBefore(s, pat, k)
    ensures !StartsWith(s, pat) && NoMatchBefore(s[1..], pat, k - 1)
  {
    assert !MatchAt(s, pat, 0);
    assert s[0..] == s;
    var t := s[1..];
    forall i: nat | i < k - 1 && i <= |t|
      ensures !MatchAt(t, pat, i)
    {
      assert !MatchAt(s, pat, i + 1);
      assert t[i..] == s[i + 1..];
    }
  }

  /** Where the pattern does not start, the first character is kept and scanning moves on by one. */
  lemma ReplaceAllMiss(s: string, pat: string, rep: string)
    requires |pat| > 0 && |s| > 0 && !StartsWith(s, pat)
    ensures ReplaceAll(s, pat, rep) == [s[0]] + ReplaceAll(s[1..], pat, rep)
  {
  }

  /** Putting the first character back in front of the next `k - 1` gives the first `k`. */
  lemma PrefixStep(s: string, k: nat, r: string)
    requires 0 < k <= |s|
    ensures [s[0]] + (s[1..][..k - 1] + r) == s[..k] + r
  {
    assert [s[0]] + s[1..][..k - 1] == s[..k];
  }

  /** The first `k` characters, where no occurrence starts, are copied through unchanged. */
  lemma {:induction false} ReplaceAllSkipAt(s: string, pat: string, rep: string, k: nat)
    requires |pat| > 0 && k <= |s| && NoMatchBefore(s, pat, k)
    ensures ReplaceAll(s, pat, rep) == s[..k] + ReplaceAll(s[k..], pat, rep)
    decreases k
  {
    if k == 0 {
      assert s[..0] + s[0..] == s[0..];
    } else {
      NoMatchBeforeTail(s, pat, k);
      ReplaceAllMiss(s, pat, rep);
      ReplaceAllSkipAt(s[1..], pat, rep, k - 1);
      assert s[1..][k - 1..] == s[k..];
      PrefixStep(s, k, ReplaceAll(s[k..], pat, rep));
    }
  }

  /** A prefix in which no occurrence starts is copied through unchanged. */
  lemma ReplaceAllSkip(a: string, b: string, pat: string, rep: string)
    requires |pat| > 0 && NoMatchBefore(a + b, pat, |a|)
    ensures ReplaceAll(a + b, pat, rep) == a + ReplaceAll(b, pat, rep)
  {
    ReplaceAllSkipAt(a + b, pat, rep, |a|);
    assert (a + b)[..|a|] == a;
    assert (a + b)[|a|..] == b;
  }

  /**
   The leftmost occurrence of the pattern is replaced and scanning resumes
   right after it: with `ReplaceAllAbsent` this says every non-overlapping
   occurrence, found left to right, is replaced.
   */
  lemma ReplaceAllLeftmost(a: string, pat: string, b: string, rep: string)
    requires |pat| > 0 && NoMatchBefore(a + pat + b, pat, |a|)
    ensures ReplaceAll(a + pat + b, pat, rep) == a + rep + ReplaceAll(b, pat, rep)
  {
    assert a + pat + b == a + (pat + b);
    ReplaceAllSkip(a, pat + b, pat, rep);
    assert StartsWith(pat + b, pat);
    assert (pat + b)[|pat|..] == b;
  }

  /** A character in neither the pattern nor the replacement occurs as often after replacing as before. */
  lemma {:induction false} ReplaceAllKeepsCount(s: string, pat: string, rep: string, c: char)
    requires |pat| > 0 && c !in pat && c !in rep
    ensures Count(ReplaceAll(s, pat, rep), c) == Count(s, c)
    decreases |s|
  {
    if |s| == 0 {
    } else if StartsWith(s, pat) {
      var rest := s[|pat|..];
      ReplaceAllKeepsCount(rest, pat, rep, c);
      CountConcat(rep, ReplaceAll(rest, pat, rep), c);
      assert s == pat + rest;
      CountConcat(pat, rest, c);
    } else {
      ReplaceAllMiss(s, pat, rep);
      ReplaceAllKeepsCount(s[1..], pat, rep, c);
      CountConcat([s[0]], ReplaceAll(s[1..], pat, rep), c);
      assert s == [s[0]] + s[1..];
      CountConcat([s[0]], s[1..], c);
    }
  }

  /** A character absent from both the input and the replacement is absent from the result. */
  lemma {:induction false} ReplaceAllKeepsAbsent(s: string, pat: string, rep: string, c: char)
    requires c !in s && c !in rep
    ensures c !in ReplaceAll(s, pat, rep)
    decreases |s|
  {
    if |pat| == 0 {
      InsertAroundKeepsAbsent(s, rep, c);
    } else if |s| == 0 {
    } else if StartsWith(s, pat) {
      assert forall i :: 0 <= i < |s[|pat|..]| ==> s[|pat|..][i] == s[i + |pat|];
      ReplaceAllKeepsAbsent(s[|pat|..], pat, rep, c);
    } else {
      assert forall i :: 0 <= i < |s[1..]| ==> s[1..][i] == s[i + 1];
      ReplaceAllKeepsAbsent(s[1..], pat, rep, c);
    }
  }

  lemma {:induction false} InsertAroundKeepsAbsent(s: string, rep: string, c: char)
    requires c !in s && c !in rep
    ensures c !in InsertAround(s, rep)
  {
    if |s| > 0 {
      assert forall i :: 0 <= i < |s[1..]| ==> s[1..][i] == s[i + 1];
      InsertAroundKeepsAbsent(s[1..], rep, c);
    }
  }
}
