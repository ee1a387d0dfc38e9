/**
 * The few Python `str` operations the ingestion helper relies on, over `seq<char>`:
 * `startswith`, `endswith`, `replace`, `rfind`, `"sep".join`, `split` and `strip`.
 */
module StrOps {

  predicate StartsWith(s: string, prefix: string) {
    |prefix| <= |s| && s[..|prefix|] == prefix
  }

  predicate EndsWith(s: string, suffix: string) {
    |suffix| <= |s| && s[|s| - |suffix|..] == suffix
  }

  /** `pat` occurs in `s` starting at index `k`. */
  predicate OccursAt(s: string, pat: string, k: int) {
    0 <= k && k + |pat| <= |s| && s[k..k + |pat|] == pat
  }

  /** Python's `pat in s`. */
  predicate Contains(s: string, pat: string) {
    exists k :: 0 <= k <= |s| && OccursAt(s, pat, k)
  }

  /** Every character of `a` is absent from `b`. */
  predicate NoCommonChar(a: string, b: string) {
    forall i :: 0 <= i < |a| ==> a[i] !in b
  }

  /**
   * Python's `s.replace(pat, rep)` for a non-empty `pat`: scanning from the left, every
   * occurrence that does not overlap an earlier replaced one is replaced.
   */
  function Replace(s: string, pat: string, rep: string): string
    requires pat != []
    decreases |s|
  {
    if s == [] then []
    else if StartsWith(s, pat) then rep + Replace(s[|pat|..], pat, rep)
    else [s[0]] + Replace(s[1..], pat, rep)
  }

  lemma ReplaceAtMatch(pat: string, t: string, rep: string)
    requires pat != []
    ensures Replace(pat + t, pat, rep) == rep + Replace(t, pat, rep)
  {
    assert (pat + t)[..|pat|] == pat;
    assert (pat + t)[|pat|..] == t;
  }

  lemma ReplaceAtMismatch(c: char, t: string, pat: string, rep: string)
    requires pat != [] && !StartsWith([c] + t, pat)
    ensures Replace([c] + t, pat, rep) == [c] + Replace(t, pat, rep)
  {
    assert ([c] + t)[1..] == t;
  }

  lemma StartsWithIsOccursAtZero(s: string, pat: string)
    ensures StartsWith(s, pat) <==> OccursAt(s, pat, 0)
  {
  }

  /** An occurrence in the tail is an occurrence in the whole string, one index further on. */
  lemma ContainsTail(s: string, pat: string)
    requires s != []
    ensures Contains(s[1..], pat) ==> Contains(s, pat)
  {
    if Contains(s[1..], pat) {
      var k :| 0 <= k <= |s[1..]| && OccursAt(s[1..], pat, k);
      assert s[1..][k..k + |pat|] == s[k + 1..k + 1 + |pat|];
      assert OccursAt(s, pat, k + 1);
    }
  }

  /** Replacing by something no longer never lengthens the string. */
  lemma {:induction false} ReplaceNoLonger(s: string, pat: string, rep: string)
    requires pat != [] && |rep| <= |pat|
    ensures |Replace(s, pat, rep)| <= |s|
    decreases |s|
  {
    if s == [] {
    } else if StartsWith(s, pat) {
      ReplaceNoLonger(s[|pat|..], pat, rep);
    } else {
      ReplaceNoLonger(s[1..], pat, rep);
    }
  }

  /** Replacing by something strictly shorter shortens every string that holds the pattern. */
  lemma {:induction false} ReplaceShorter(s: string, pat: string, rep: string)
    requires pat != [] && |rep| < |pat|
    requires Contains(s, pat)
    ensures |Replace(s, pat, rep)| < |s|
    decreases |s|
  {
    StartsWithIsOccursAtZero(s, pat);
    if StartsWith(s, pat) {
      ReplaceNoLonger(s[|pat|..], pat, rep);
    } else {
      var k :| 0 <= k <= |s| && OccursAt(s, pat, k);
      assert k != 0;
      assert s[1..][k - 1..k - 1 + |pat|] == s[k..k + |pat|];
      assert OccursAt(s[1..], pat, k - 1);
      ReplaceShorter(s[1..], pat, rep);
    }
  }

  /** Where the pattern does not occur, `replace` returns its input unchanged. */
  lemma {:induction false} ReplaceAbsent(s: string, pat: string, rep: string)
    requires pat != []
    requires !Contains(s, pat)
    ensures Replace(s, pat, rep) == s
    decreases |s|
  {
    if s != [] {
      assert !OccursAt(s, pat, 0);
      StartsWithIsOccursAtZero(s, pat);
      ContainsTail(s, pat);
      ReplaceAbsent(s[1..], pat, rep);
    }
  }

  /**
   * Up to the first character that is not a pattern character, the output of `replace`
   * copies its input: a non-empty replacement made only of other characters always
   * starts with a character that is not in the pattern.
   */
  lemma {:induction false} ReplaceCopiesPrefix(t: string, pat: string, rep: string, j: nat)
    requires pat != [] && rep != [] && NoCommonChar(rep, pat)
    ensures j <= |Replace(t, pat, rep)| && (forall i :: 0 <= i < j ==> Replace(t, pat, rep)[i] in pat)
            ==> j <= |t| && Replace(t, pat, rep)[..j] == t[..j]
    decreases |t|
  {
    var r := Replace(t, pat, rep);
    if j == 0 || t == [] {
    } else if StartsWith(t, pat) {
      assert r[0] == rep[0];
    } else {
      var r' := Replace(t[1..], pat, rep);
      assert r == [t[0]] + r';
      ReplaceCopiesPrefix(t[1..], pat, rep, j - 1);
      if j <= |r| && (forall i :: 0 <= i < j ==> r[i] in pat) {
        assert forall i :: 0 <= i < j - 1 ==> r'[i] == r[i + 1];
        assert r[..j] == [t[0]] + r'[..j - 1];
      }
    }
  }

  /**
   * After `replace`, the pattern no longer occurs, provided the replacement is non-empty
   * and shares no character with the pattern.
   */
  lemma {:induction false} ReplaceRemovesAll(s: string, pat: string, rep: string)
    requires pat != [] && rep != [] && NoCommonChar(rep, pat)
    ensures !Contains(Replace(s, pat, rep), pat)
    decreases |s|
  {
    if s == [] {
    } else if StartsWith(s, pat) {
      ReplaceRemovesAll(s[|pat|..], pat, rep);
      PrependForeignKeepsAbsent(rep, Replace(s[|pat|..], pat, rep), pat);
    } else {
      ReplaceRemovesAll(s[1..], pat, rep);
      ReplaceCopiesPrefix(s[1..], pat, rep, |pat| - 1);
      PrependMismatchKeepsAbsent(s, Replace(s[1..], pat, rep), pat);
    }
  }

  /** Putting characters foreign to `pat` in front of a string cannot create an occurrence. */
  lemma PrependForeignKeepsAbsent(rep: string, r': string, pat: string)
    requires pat != [] && NoCommonChar(rep, pat) && !Contains(r', pat)
    ensures !Contains(rep + r', pat)
  {
    var r := rep + r';
    var n := |pat|;
    forall k | 0 <= k <= |r| - n ensures !OccursAt(r, pat, k) {
      if k < |rep| {
        assert r[k..k + n][0] == rep[k];
        assert pat[0] in pat;
      } else {
        var w, w' := r[k..k + n], r'[k - |rep|..k - |rep| + n];
        forall j | 0 <= j < n
          ensures w[j] == w'[j]
        {
          assert r[k + j] == r'[k - |rep| + j];
        }
        assert w == w';
        assert 0 <= k - |rep| <= |r'| && !OccursAt(r', pat, k - |rep|);
      }
    }
  }

  /**
   * The step of `Replace` past a non-matching first character: if the rest came out free of
   * `pat` and copies the input wherever it holds only pattern characters, the whole is free.
   */
  lemma PrependMismatchKeepsAbsent(s: string, r': string, pat: string)
    requires pat != [] && s != [] && !StartsWith(s, pat) && !Contains(r', pat)
    requires |pat| - 1 <= |r'| && (forall i :: 0 <= i < |pat| - 1 ==> r'[i] in pat)
             ==> |pat| - 1 <= |s[1..]| && r'[..|pat| - 1] == s[1..][..|pat| - 1]
    ensures !Contains([s[0]] + r', pat)
  {
    var r := [s[0]] + r';
    var n := |pat|;
    forall k | 0 <= k <= |r| - n ensures !OccursAt(r, pat, k) {
      if k == 0 {
        if forall i :: 0 <= i < n - 1 ==> r'[i] in pat {
          assert r'[..n - 1] == s[1..][..n - 1];
          assert r[..n] == [s[0]] + r'[..n - 1];
          assert s[..n] == [s[0]] + s[1..][..n - 1];
        } else {
          var i :| 0 <= i < n - 1 && r'[i] !in pat;
          assert r[..n][i + 1] == r'[i];
          assert pat[i + 1] in pat;
        }
      } else {
        var w, w' := r[k..k + n], r'[k - 1..k - 1 + n];
        forall j | 0 <= j < n
          ensures w[j] == w'[j]
        {
          assert r[k + j] == r'[k - 1 + j];
        }
        assert w == w';
        assert 0 <= k - 1 <= |r'| && !OccursAt(r', pat, k - 1);
      }
    }
  }

  /**
   * Replacing one character by another is a pointwise substitution: lengths agree, and
   * each character equal to the pattern character becomes the replacement character.
   */
  lemma {:induction false} ReplaceCharPointwise(s: string, a: char, b: char)
    ensures |Replace(s, [a], [b])| == |s|
    ensures forall i :: 0 <= i < |s| ==> Replace(s, [a], [b])[i] == if s[i] == a then b else s[i]
    decreases |s|
  {
    if s != [] {
      ReplaceCharPointwise(s[1..], a, b);
    }
  }

  /**
   * When no occurrence of the pattern straddles the boundary between `x` and `y`, the
   * left-to-right scan reaches that boundary exactly, so `replace` works on the two parts
   * independently.
   */
  lemma {:induction false} ReplaceSplit(x: string, y: string, pat: string, rep: string)
    requires pat != []
    requires forall k :: |x| - |pat| < k < |x| ==> !OccursAt(x + y, pat, k)
    ensures Replace(x + y, pat, rep) == Replace(x, pat, rep) + Replace(y, pat, rep)
    decreases |x|
  {
    if x == [] {
      assert x + y == y;
    } else {
      BoundaryStartsWith(x, y, pat);
      var n := if StartsWith(x, pat) then |pat| else 1;
      ShiftNoStraddle(x, y, pat, n);
      ReplaceSplit(x[n..], y, pat, rep);
    }
  }

  /** Without a straddling occurrence, `x + y` starts with the pattern exactly when `x` does. */
  lemma BoundaryStartsWith(x: string, y: string, pat: string)
    requires x != [] && pat != []
    requires forall k :: |x| - |pat| < k < |x| ==> !OccursAt(x + y, pat, k)
    ensures StartsWith(x + y, pat) <==> StartsWith(x, pat)
  {
    if StartsWith(x + y, pat) {
      StartsWithIsOccursAtZero(x + y, pat);
      assert |pat| <= |x|;
      assert x[..|pat|] == (x + y)[..|pat|];
    } else {
      assert !StartsWith(x, pat);
    }
  }

  /** Dropping the first `n` characters of `x` keeps the boundary free of straddling occurrences. */
  lemma ShiftNoStraddle(x: string, y: string, pat: string, n: int)
    requires 0 < n <= |x|
    requires forall k :: |x| - |pat| < k < |x| ==> !OccursAt(x + y, pat, k)
    ensures (x + y)[n..] == x[n..] + y
    ensures forall k :: |x[n..]| - |pat| < k < |x[n..]| ==> !OccursAt(x[n..] + y, pat, k)
  {
    var x' := x[n..];
    assert (x + y)[n..] == x' + y;
    forall k | |x'| - |pat| < k < |x'|
      ensures !OccursAt(x' + y, pat, k)
    {
      assert !OccursAt(x + y, pat, k + n);
    }
  }

  /** A string ends with whatever was appended to it. */
  lemma EndsWithAppended(s: string, t: string)
    ensures EndsWith(s + t, t)
  {
    assert (s + t)[|s + t| - |t|..] == t;
  }

  /** Python's `s.rfind(c)`: the last index holding `c`, or -1. */
  function RFind(s: string, c: char): (r: int)
    ensures -1 <= r < |s|
    ensures r == -1 ==> c !in s
    ensures 0 <= r ==> s[r] == c
    ensures forall j :: r < j < |s| ==> s[j] != c
  {
    if s == [] then -1
    else if s[|s| - 1] == c then |s| - 1
    else RFind(s[..|s| - 1], c)
  }

  /** Python's `sep.join(parts)`. */
  function Join(parts: seq<string>, sep: string): string
  {
    if |parts| == 0 then ""
    else if |parts| == 1 then parts[0]
    else parts[0] + sep + Join(parts[1..], sep)
  }

  /** Python's `s.find(c)`: the first index holding `c`, or -1. */
  function Find(s: string, c: char): (r: int)
    ensures -1 <= r < |s|
    ensures r == -1 ==> c !in s
    ensures 0 <= r ==> s[r] == c && c !in s[..r]
  {
    if s == [] then -1
    else if s[0] == c then 0
    else var r := Find(s[1..], c); if r == -1 then -1 else r + 1
  }

  /** Python's `s.split(c)` for a single separator character. */
  function Split(s: string, c: char): (parts: seq<string>)
    ensures |parts| >= 1
    decreases |s|
  {
    var i := Find(s, c);
    if i == -1 then [s] else [s[..i]] + Split(s[i + 1..], c)
  }

  /** Splitting at the separator undoes joining with it, as long as no part holds it. */
  lemma {:induction false} SplitJoin(parts: seq<string>, c: char)
    requires |parts| >= 1
    requires forall i :: 0 <= i < |parts| ==> c !in parts[i]
    ensures Split(Join(parts, [c]), c) == parts
    decreases |parts|
  {
    if |parts| > 1 {
      var head, tail := parts[0], parts[1..];
      assert c !in head by {
        assert parts[0] == head;
      }
      assert forall i :: 0 <= i < |tail| ==> c !in tail[i] by {
        forall i | 0 <= i < |tail|
          ensures c !in tail[i]
        {
          assert tail[i] == parts[i + 1];
        }
      }
      var joined := Join(tail, [c]);
      calc {
        Split(Join(parts, [c]), c);
        Split(head + [c] + joined, c);
        { SplitAfter(head, c, joined); }
        [head] + Split(joined, c);
        { SplitJoin(tail, c); }
        [head] + tail;
        parts;
      }
    }
  }

  /** Splitting at the first separator: the piece before it, then the split of the rest. */
  lemma SplitAfter(head: string, c: char, rest: string)
    requires c !in head
    ensures Split(head + [c] + rest, c) == [head] + Split(rest, c)
  {
    var s := head + [c] + rest;
    FindAfter(head, c, rest);
    assert s[..|head|] == head;
    assert s[|head| + 1..] == rest;
  }

  lemma {:induction false} FindAfter(a: string, c: char, b: string)
    requires c !in a
    ensures Find(a + [c] + b, c) == |a|
    decreases |a|
  {
    if a != [] {
      assert (a + [c] + b)[1..] == a[1..] + [c] + b;
      FindAfter(a[1..], c, b);
    }
  }

  /** The characters Python's `str.strip()` removes (`str.isspace`). */
  predicate IsSpace(c: char) {
    var n := c as int;
    (9 <= n <= 13) || (28 <= n <= 32) || n == 0x85 || n == 0xA0 || n == 0x1680
    || (0x2000 <= n <= 0x200A) || n == 0x2028 || n == 0x2029 || n == 0x202F
    || n == 0x205F || n == 0x3000
  }

  function StripLeft(s: string): string
  {
    if s != [] && IsSpace(s[0]) then StripLeft(s[1..]) else s
  }

  function StripRight(s: string): string
  {
    if s != [] && IsSpace(s[|s| - 1]) then StripRight(s[..|s| - 1]) else s
  }

  /** Python's `s.strip()`. */
  function Strip(s: string): string
  {
    StripRight(StripLeft(s))
  }

  predicate AllSpace(s: string) {
    forall i :: 0 <= i < |s| ==> IsSpace(s[i])
  }

  lemma {:induction false} StripLeftEmpty(s: string)
    ensures StripLeft(s) == [] <==> AllSpace(s)
    decreases |s|
  {
    if s != [] && IsSpace(s[0]) {
      StripLeftEmpty(s[1..]);
      assert AllSpace(s) <==> AllSpace(s[1..]) by {
        assert forall i :: 0 <= i < |s| - 1 ==> s[1..][i] == s[i + 1];
      }
    }
  }

  lemma {:induction false} StripRightEmpty(s: string)
    ensures StripRight(s) == [] <==> AllSpace(s)
    decreases |s|
  {
    if s != [] && IsSpace(s[|s| - 1]) {
      StripRightEmpty(s[..|s| - 1]);
      assert AllSpace(s) <==> AllSpace(s[..|s| - 1]) by {
        assert forall i :: 0 <= i < |s| - 1 ==> s[..|s| - 1][i] == s[i];
      }
    }
  }

  lemma {:induction false} StripLeftNoLeadingSpace(s: string)
    ensures StripLeft(s) == [] || !IsSpace(StripLeft(s)[0])
    decreases |s|
  {
    if s != [] && IsSpace(s[0]) {
      StripLeftNoLeadingSpace(s[1..]);
    }
  }

  /** `s.strip()` is empty exactly when every character of `s` is whitespace. */
  lemma StripEmptyIffAllSpace(s: string)
    ensures Strip(s) == [] <==> AllSpace(s)
  {
    StripLeftEmpty(s);
    StripLeftNoLeadingSpace(s);
    StripRightEmpty(StripLeft(s));
  }
}
