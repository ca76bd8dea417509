/** The Python string operations the reply parser is built from: substring
    search (`find` and `in`), slicing with Python's bound rules, and
    `strip()` with no argument. */
module PyText {

  /** The characters Python's `str.isspace()` accepts, which are the ones
      `str.strip()` removes. */
  predicate IsSpace(c: char) {
    || c == '\t' || c == '\n' || c == '\U{0B}' || c == '\U{0C}' || c == '\r'
    || c == '\U{1C}' || c == '\U{1D}' || c == '\U{1E}' || c == '\U{1F}' || c == ' '
    || c == '\U{85}' || c == '\U{A0}' || c == '\U{1680}'
    || c == '\U{2000}' || c == '\U{2001}' || c == '\U{2002}' || c == '\U{2003}'
    || c == '\U{2004}' || c == '\U{2005}' || c == '\U{2006}' || c == '\U{2007}'
    || c == '\U{2008}' || c == '\U{2009}' || c == '\U{200A}'
    || c == '\U{2028}' || c == '\U{2029}' || c == '\U{202F}' || c == '\U{205F}'
    || c == '\U{3000}'
  }

  ghost predicate AllSpace(s: string) {
    forall k :: 0 <= k < |s| ==> IsSpace(s[k])
  }

  /** Neither end of `s` is whitespace. */
  predicate IsTrimmed(s: string) {
    s == [] || (!IsSpace(s[0]) && !IsSpace(s[|s| - 1]))
  }

  /** `m` sits at offset `i` of `s` with only whitespace around it. */
  ghost predicate Framed(s: string, m: string, i: int) {
    && 0 <= i <= |s| - |m|
    && s[i..i + |m|] == m
    && AllSpace(s[..i])
    && AllSpace(s[i + |m|..])
  }

  // ---------------------------------------------------------------- strip

  /** The index of the first non-space character of `s` at or after `i`,
      or `|s|` when there is none. */
  function SpaceRunEnd(s: string, i: nat): (r: nat)
    requires i <= |s|
    ensures i <= r <= |s|
    decreases |s| - i
  {
    if i < |s| && IsSpace(s[i]) then SpaceRunEnd(s, i + 1) else i
  }

  /** `SpaceRunEnd` skips only whitespace and stops at the first non-space. */
  lemma {:induction false} SpaceRunEndSpec(s: string, i: nat)
    requires i <= |s|
    ensures forall k :: i <= k < SpaceRunEnd(s, i) ==> IsSpace(s[k])
    ensures SpaceRunEnd(s, i) == |s| || !IsSpace(s[SpaceRunEnd(s, i)])
    decreases |s| - i
  {
    if i < |s| && IsSpace(s[i]) {
      SpaceRunEndSpec(s, i + 1);
    }
  }

  /** The index just past the last non-space character of `s` before `j`,
      or 0 when there is none. */
  function SpaceRunStart(s: string, j: nat): (r: nat)
    requires j <= |s|
    ensures r <= j
  {
    if j > 0 && IsSpace(s[j - 1]) then SpaceRunStart(s, j - 1) else j
  }

  /** `SpaceRunStart` skips only whitespace and stops after the last non-space. */
  lemma {:induction false} SpaceRunStartSpec(s: string, j: nat)
    requires j <= |s|
    ensures forall k :: SpaceRunStart(s, j) <= k < j ==> IsSpace(s[k])
    ensures SpaceRunStart(s, j) == 0 || !IsSpace(s[SpaceRunStart(s, j) - 1])
  {
    if j > 0 && IsSpace(s[j - 1]) {
      SpaceRunStartSpec(s, j - 1);
    }
  }

  /** `s.lstrip()`: the suffix of `s` from its first non-space. */
  function StripLeft(s: string): (r: string)
    ensures |r| <= |s|
  {
    s[SpaceRunEnd(s, 0)..]
  }

  /** `s.rstrip()`: the prefix of `s` up to its last non-space. */
  function StripRight(s: string): (r: string)
    ensures |r| <= |s|
  {
    s[..SpaceRunStart(s, |s|)]
  }

  /** `lstrip()` removes a run of whitespace and leaves a text that does not
      start with whitespace. */
  lemma StripLeftSpec(s: string)
    ensures var r := StripLeft(s);
      && r == s[|s| - |r|..] && AllSpace(s[..|s| - |r|]) && (r == [] || !IsSpace(r[0]))
  {
    SpaceRunEndSpec(s, 0);
  }

  /** `rstrip()` removes a run of whitespace and leaves a text that does not
      end with whitespace. */
  lemma StripRightSpec(s: string)
    ensures var r := StripRight(s);
      && r == s[..|r|] && AllSpace(s[|r|..]) && (r == [] || !IsSpace(r[|r| - 1]))
  {
    SpaceRunStartSpec(s, |s|);
  }

  /** `s.strip()`: `s` without its leading and trailing whitespace. That
      it is exactly what the whitespace framed is `StripFramed` and
      `StripUnique`. */
  function Strip(s: string): (r: string)
    ensures IsTrimmed(r) && |r| <= |s|
  {
    StripLeftSpec(s);
    StripRightSpec(StripLeft(s));
    StripRight(StripLeft(s))
  }

  /** What `strip()` keeps sits inside `s` with only whitespace around it. */
  lemma StripFramed(s: string)
    ensures exists i :: Framed(s, Strip(s), i)
  {
    var t := StripLeft(s);
    var r := StripRight(t);
    StripLeftSpec(s);
    StripRightSpec(t);
    var i := |s| - |t|;
    assert s[i..i + |r|] == r;
    assert s[i + |r|..] == t[|r|..];
    assert Framed(s, Strip(s), i);
  }

  lemma AllSpaceJoin(a: string, b: string)
    requires AllSpace(a) && AllSpace(b)
    ensures AllSpace(a + b)
  {
  }

  /** The space run starting at `i` ends at the one index that closes it. */
  lemma SpaceRunEndIs(s: string, i: nat, m: nat)
    requires i <= m <= |s| && (forall k :: i <= k < m ==> IsSpace(s[k])) && (m == |s| || !IsSpace(s[m]))
    ensures SpaceRunEnd(s, i) == m
  {
    SpaceRunEndSpec(s, i);
  }

  /** The space run ending at `j` starts at the one index that opens it. */
  lemma SpaceRunStartIs(s: string, j: nat, m: nat)
    requires m <= j <= |s| && (forall k :: m <= k < j ==> IsSpace(s[k])) && (m == 0 || !IsSpace(s[m - 1]))
    ensures SpaceRunStart(s, j) == m
  {
    SpaceRunStartSpec(s, j);
  }

  lemma StripLeftPadded(a: string, t: string)
    requires AllSpace(a) && (t == [] || !IsSpace(t[0]))
    ensures StripLeft(a + t) == t
  {
    var s := a + t;
    assert forall k :: 0 <= k < |a| ==> s[k] == a[k];
    SpaceRunEndIs(s, 0, |a|);
    assert s[|a|..] == t;
  }

  lemma StripRightPadded(t: string, b: string)
    requires AllSpace(b) && (t == [] || !IsSpace(t[|t| - 1]))
    ensures StripRight(t + b) == t
  {
    var s := t + b;
    assert forall k :: |t| <= k < |s| ==> s[k] == b[k - |t|];
    SpaceRunStartIs(s, |s|, |t|);
    assert s[..|t|] == t;
  }

  /** Stripping is determined by the trimmed middle: whatever whitespace
      surrounds a trimmed text, `strip()` gives that text back. */
  lemma StripUnique(a: string, m: string, b: string)
    requires AllSpace(a) && AllSpace(b) && IsTrimmed(m)
    ensures Strip(a + m + b) == m
  {
    if m == [] {
      assert a + m + b == (a + b) + [];
      AllSpaceJoin(a, b);
      StripLeftPadded(a + b, []);
    } else {
      assert a + m + b == a + (m + b);
      StripLeftPadded(a, m + b);
      StripRightPadded(m, b);
    }
  }

  lemma Regroup(a: string, p: string, m: string, q: string, b: string)
    ensures a + (p + m + q) + b == (a + p) + m + (q + b)
  {
  }

  /** Whitespace added around a text never changes what `strip()` keeps. */
  lemma StripPadded(a: string, s: string, b: string)
    requires AllSpace(a) && AllSpace(b)
    ensures Strip(a + s + b) == Strip(s)
  {
    var m := Strip(s);
    StripFramed(s);
    var i :| Framed(s, m, i);
    var pre, post := s[..i], s[i + |m|..];
    assert s == pre + m + post by {
      assert s == s[..i] + s[i..i + |m|] + s[i + |m|..];
    }
    AllSpaceJoin(a, pre);
    AllSpaceJoin(post, b);
    Regroup(a, pre, m, post, b);
    StripUnique(a + pre, m, post + b);
  }

  /** A text with no whitespace at either end is its own `strip()`. */
  lemma StripTrimmed(m: string)
    requires IsTrimmed(m)
    ensures Strip(m) == m
  {
    assert [] + m + [] == m;
    StripUnique([], m, []);
  }

  /** `strip()` is idempotent. */
  lemma StripIdempotent(s: string)
    ensures Strip(Strip(s)) == Strip(s)
  {
    StripTrimmed(Strip(s));
  }

  // ---------------------------------------------------------------- find

  /** `pat` occurs in `s` starting at index `i`. */
  ghost predicate OccursAt(s: string, pat: string, i: int) {
    0 <= i && i + |pat| <= |s| && s[i..i + |pat|] == pat
  }

  ghost predicate Occurs(s: string, pat: string) {
    exists i :: OccursAt(s, pat, i)
  }

  /** `i` is the lowest index at which `pat` occurs in `s`. */
  ghost predicate FirstAt(s: string, pat: string, i: int) {
    OccursAt(s, pat, i) && forall j :: 0 <= j < i ==> !OccursAt(s, pat, j)
  }

  /** The lowest index at or after `from` where `pat` occurs, or -1. */
  function FindFrom(s: string, pat: string, from: nat): (r: int)
    requires from <= |s|
    ensures r == -1 || from <= r <= |s| - |pat|
    decreases |s| - from
  {
    if from + |pat| > |s| then -1
    else if s[from..from + |pat|] == pat then from
    else FindFrom(s, pat, from + 1)
  }

  /** `FindFrom` returns an occurrence, and no occurrence is skipped before it. */
  lemma {:induction false} FindFromSpec(s: string, pat: string, from: nat)
    requires from <= |s|
    ensures var r := FindFrom(s, pat, from);
      && (r == -1 || OccursAt(s, pat, r))
      && forall j :: from <= j && (r == -1 || j < r) ==> !OccursAt(s, pat, j)
    decreases |s| - from
  {
    if from + |pat| <= |s| && s[from..from + |pat|] != pat {
      FindFromSpec(s, pat, from + 1);
    }
  }

  /** `s.find(pat)`: the lowest index of `pat` in `s`, or -1 when it does not
      occur; `FindSpec` states it. */
  function Find(s: string, pat: string): (r: int)
    ensures r == -1 || 0 <= r <= |s| - |pat|
  {
    FindFrom(s, pat, 0)
  }

  /** `find` gives -1 exactly when the pattern does not occur, and otherwise
      the lowest index where it does. */
  lemma FindSpec(s: string, pat: string)
    ensures Find(s, pat) == -1 <==> !Occurs(s, pat)
    ensures Find(s, pat) != -1 ==> FirstAt(s, pat, Find(s, pat))
  {
    FindFromSpec(s, pat, 0);
  }

  /** `pat in s`. */
  predicate Contains(s: string, pat: string) {
    Find(s, pat) != -1
  }

  /** `in` holds exactly when the pattern occurs. */
  lemma ContainsSpec(s: string, pat: string)
    ensures Contains(s, pat) <==> Occurs(s, pat)
  {
    FindSpec(s, pat);
  }

  lemma FindIsFirst(s: string, pat: string, i: int)
    requires FirstAt(s, pat, i)
    ensures Find(s, pat) == i
  {
    FindSpec(s, pat);
  }

  // ---------------------------------------------------------------- slices

  /** How Python turns a slice bound into an index of a sequence of length
      `n`: a negative bound counts from the end, then the bound is clamped
      to `[0, n]`. */
  function SliceBound(i: int, n: nat): (k: nat)
    ensures k <= n
    ensures 0 <= i <= n ==> k == i
    ensures i < 0 && i + n >= 0 ==> k == n + i
    ensures i > n ==> k == n
    ensures i + n < 0 ==> k == 0
  {
    if i < 0 then (if i + n < 0 then 0 else i + n)
    else if i > n then n
    else i
  }

  /** `s[start:stop]`, which is empty when the clamped start is not below
      the clamped stop. */
  function Slice<T>(s: seq<T>, start: int, stop: int): (r: seq<T>)
    ensures 0 <= start <= stop <= |s| ==> r == s[start..stop]
    ensures 0 <= stop <= start ==> r == []
    ensures start == 0 && stop < 0 && stop + |s| >= 0 ==> r == s[..|s| + stop]
  {
    var lo, hi := SliceBound(start, |s|), SliceBound(stop, |s|);
    if lo < hi then s[lo..hi] else []
  }

  // ---------------------------------------------------------------- helpers
  // Facts about where a pattern can occur in a concatenation.

  lemma CharOfOccurrence(s: string, pat: string, j: int, k: int)
    requires 0 <= k < |pat|
    ensures OccursAt(s, pat, j) ==> s[j + k] == pat[k]
  {
    if OccursAt(s, pat, j) {
      assert s[j..j + |pat|][k] == s[j + k];
    }
  }

  /** An occurrence in `x + [c] + y` lies inside `x`, inside `y`, or covers
      the joining `c`. */
  lemma OccursInJoin(x: string, c: char, y: string, pat: string, j: int)
    ensures OccursAt(x + [c] + y, pat, j) && j <= |x| ==> OccursAt(x, pat, j) || c in pat
    ensures OccursAt(x + [c] + y, pat, j) && j > |x| ==> OccursAt(y, pat, j - |x| - 1)
  {
    var s := x + [c] + y;
    if OccursAt(s, pat, j) {
      if j + |pat| <= |x| {
        assert s[j..j + |pat|] == x[j..j + |pat|];
      } else if j > |x| {
        assert s[j..j + |pat|] == y[j - |x| - 1..j - |x| - 1 + |pat|];
      } else {
        CharOfOccurrence(s, pat, j, |x| - j);
      }
    }
  }

  /** A pattern missing character `c` cannot occur across a `c` that joins
      two texts it does not occur in. */
  lemma NotAcrossJoin(x: string, c: char, y: string, pat: string)
    requires c !in pat && !Occurs(x, pat) && !Occurs(y, pat)
    ensures !Occurs(x + [c] + y, pat)
  {
    forall j ensures !OccursAt(x + [c] + y, pat, j) {
      OccursInJoin(x, c, y, pat, j);
    }
  }

  /** A pattern placed right after a character it does not contain, behind a
      text it does not occur in, is found there first. */
  lemma FirstAfterJoin(x: string, c: char, pat: string, z: string)
    requires c !in pat && !Occurs(x, pat)
    ensures FirstAt(x + [c] + pat + z, pat, |x| + 1)
  {
    var s := x + [c] + pat + z;
    assert s == x + [c] + (pat + z);
    assert s[|x| + 1..|x| + 1 + |pat|] == pat;
    forall j | 0 <= j < |x| + 1 ensures !OccursAt(s, pat, j) {
      OccursInJoin(x, c, pat + z, pat, j);
    }
  }

  /** A pattern with a character that a text lacks does not occur in it. */
  lemma AbsentByChar(s: string, pat: string, k: int)
    requires 0 <= k < |pat| && pat[k] !in s
    ensures !Occurs(s, pat)
  {
    forall j ensures !OccursAt(s, pat, j) {
      CharOfOccurrence(s, pat, j, k);
    }
  }

  /** An occurrence of `a + b` contains an occurrence of `b`. */
  lemma OccursAtSuffix(s: string, a: string, b: string, j: int)
    ensures OccursAt(s, a + b, j) ==> OccursAt(s, b, j + |a|)
  {
    if OccursAt(s, a + b, j) {
      assert s[j + |a|..j + |a| + |b|] == s[j..j + |a + b|][|a|..];
    }
  }

  lemma OccursInMiddle(a: string, x: string, b: string)
    ensures OccursAt(a + x + b, x, |a|)
  {
    assert (a + x + b)[|a|..|a| + |x|] == x;
  }

  lemma OccursLast(a: string, x: string)
    ensures OccursAt(a + x, x, |a|)
  {
    assert (a + x)[|a|..|a| + |x|] == x;
  }

  /** Text appended after an occurrence leaves it in place. */
  lemma OccursInPrefix(s: string, pat: string, i: int, t: string)
    requires OccursAt(s, pat, i)
    ensures OccursAt(s + t, pat, i)
  {
    assert (s + t)[i..i + |pat|] == s[i..i + |pat|];
  }

  lemma OccursBeforePair(s: string, pat: string, i: int, a: string, b: string)
    requires OccursAt(s, pat, i)
    ensures OccursAt(s + a + b, pat, i)
  {
    OccursInPrefix(s, pat, i, a);
    OccursInPrefix(s + a, pat, i, b);
  }

  lemma CharNotInJoin(x: string, y: string, c: char)
    requires c !in x && c !in y
    ensures c !in x + y
  {
  }

  /** Appending leaves the first `n` characters alone. */
  lemma PrefixKept(s: string, t: string, n: int)
    requires 0 <= n <= |s|
    ensures (s + t)[..n] == s[..n]
  {
  }

  lemma TooShort(s: string, pat: string)
    requires |s| < |pat|
    ensures !Occurs(s, pat)
  {
  }
}
