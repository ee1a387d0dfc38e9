/**
 * Path handling of the ingestion helper: the normaliser `simple_decode_path`, and the
 * parts of Python's POSIX `os.path` the build filter uses (`splitext`, `basename`),
 * with `str.lower`.
 */
module Paths {
  import opened StrOps

  const FileScheme: string := "file:///"
  const EncodedSpace: string := "%20"

  /**
   * `simple_decode_path`: when the string starts with `file:///`, every occurrence of
   * `file:///` is removed; then every `%20` becomes a space; then every backslash
   * becomes a slash. Nothing else is decoded.
   */
  function SimpleDecodePath(raw: string): string
  {
    var unprefixed := if StartsWith(raw, FileScheme) then Replace(raw, FileScheme, "") else raw;
    var spaced := Replace(unprefixed, EncodedSpace, " ");
    Replace(spaced, "\\", "/")
  }

  lemma ContainsChar(s: string, c: char)
    ensures Contains(s, [c]) <==> c in s
  {
    if c in s {
      var i :| 0 <= i < |s| && s[i] == c;
      assert OccursAt(s, [c], i);
    }
    if Contains(s, [c]) {
      var k :| 0 <= k <= |s| && OccursAt(s, [c], k);
      assert s[k] == s[k..k + 1][0];
    }
  }

  /** A string without the first character of a pattern cannot hold the pattern. */
  lemma NotContainsWithoutFirstChar(s: string, pat: string)
    requires pat != [] && pat[0] !in s
    ensures !Contains(s, pat)
  {
    forall k | 0 <= k <= |s| - |pat| ensures !OccursAt(s, pat, k) {
      assert s[k..k + |pat|][0] == s[k];
    }
  }

  /** The normalised path holds no backslash and no `%20`. */
  lemma DecodeLeavesNoBackslashOrEncodedSpace(raw: string)
    ensures '\\' !in SimpleDecodePath(raw)
    ensures !Contains(SimpleDecodePath(raw), EncodedSpace)
  {
    var unprefixed := if StartsWith(raw, FileScheme) then Replace(raw, FileScheme, "") else raw;
    var spaced := Replace(unprefixed, EncodedSpace, " ");
    var r := Replace(spaced, "\\", "/");
    assert r == SimpleDecodePath(raw);
    ReplaceRemovesAll(unprefixed, EncodedSpace, " ");
    ReplaceCharPointwise(spaced, '\\', '/');
    forall k | 0 <= k <= |r| - 3 ensures !OccursAt(r, EncodedSpace, k) {
      assert !OccursAt(spaced, EncodedSpace, k);
      var i :| 0 <= i < 3 && spaced[k..k + 3][i] != EncodedSpace[i];
      assert r[k..k + 3][i] == r[k + i];
    }
  }

  /** Normalising never lengthens a path. */
  lemma DecodeNoLonger(raw: string)
    ensures |SimpleDecodePath(raw)| <= |raw|
  {
    var unprefixed := if StartsWith(raw, FileScheme) then Replace(raw, FileScheme, "") else raw;
    var spaced := Replace(unprefixed, EncodedSpace, " ");
    if StartsWith(raw, FileScheme) {
      ReplaceNoLonger(raw, FileScheme, "");
    }
    ReplaceNoLonger(unprefixed, EncodedSpace, " ");
    ReplaceCharPointwise(spaced, '\\', '/');
  }

  /**
   * A path is returned unchanged exactly when it does not start with `file:///` and holds
   * neither `%20` nor a backslash. That other percent escapes, such as `%2F`, are copied
   * undecoded wherever they occur is `DecodeKeepsOtherEscapes`.
   */
  lemma DecodeFixedPoint(raw: string)
    ensures SimpleDecodePath(raw) == raw
        <==> !StartsWith(raw, FileScheme) && !Contains(raw, EncodedSpace) && '\\' !in raw
  {
    var unprefixed := if StartsWith(raw, FileScheme) then Replace(raw, FileScheme, "") else raw;
    var spaced := Replace(unprefixed, EncodedSpace, " ");
    var r := Replace(spaced, "\\", "/");
    assert r == SimpleDecodePath(raw);
    ReplaceCharPointwise(spaced, '\\', '/');
    ReplaceNoLonger(unprefixed, EncodedSpace, " ");
    if StartsWith(raw, FileScheme) {
      StartsWithIsOccursAtZero(raw, FileScheme);
      ReplaceShorter(raw, FileScheme, "");
      assert |r| < |raw|;
    } else if Contains(raw, EncodedSpace) {
      ReplaceShorter(raw, EncodedSpace, " ");
      assert |r| < |raw|;
    } else if '\\' in raw {
      ReplaceAbsent(raw, EncodedSpace, " ");
      var i :| 0 <= i < |raw| && raw[i] == '\\';
      assert r[i] == '/';
    } else {
      ReplaceAbsent(raw, EncodedSpace, " ");
      ContainsChar(raw, '\\');
      ReplaceAbsent(raw, "\\", "/");
    }
  }

  lemma SchemeSplits()
    ensures FileScheme == "fi" + "le:///"
    ensures FileScheme[0] != FileScheme[1] && FileScheme[0] != FileScheme[2]
  {
  }

  /**
   * Removing every `pat` from `pat + head + pat + t` leaves `head + t` when `head` is
   * shaped like the `fi` of `file:///`: neither `head + pat + t` nor its tail starts with `pat`,
   * and `t` holds no first character of `pat`.
   */
  lemma RemovalJoins(pat: string, head: string, t: string)
    requires |head| == 2 && |pat| >= 3
    requires head[1] != pat[0] && pat[0] != pat[2]
    requires pat[0] !in t
    ensures Replace(pat + (head + (pat + t)), pat, "") == head + t
  {
    assert Replace(pat + t, pat, "") == t by {
      NotContainsWithoutFirstChar(t, pat);
      ReplaceAbsent(t, pat, "");
      ReplaceAtMatch(pat, t, "");
    }
    assert StartsWith(pat + t, pat) by {
      assert (pat + t)[..|pat|] == pat;
    }
    HeadBeforeMatchKept(head, pat + t, pat);
    ReplaceAtMatch(pat, head + (pat + t), "");
  }

  /** Two characters in front of an occurrence, neither starting one, are kept as they are. */
  lemma HeadBeforeMatchKept(head: string, s: string, pat: string)
    requires |head| == 2 && |pat| >= 3
    requires head[1] != pat[0] && pat[0] != pat[2]
    requires StartsWith(s, pat)
    ensures Replace(head + s, pat, "") == head + Replace(s, pat, "")
  {
    var s1 := [head[1]] + s;
    var s0 := [head[0]] + s1;
    assert !StartsWith(s1, pat) by {
      assert s1[0] == head[1];
    }
    ReplaceAtMismatch(head[1], s, pat, "");
    assert !StartsWith(s0, pat) by {
      assert s0[2] == s[0] == pat[0];
    }
    ReplaceAtMismatch(head[0], s1, pat, "");
    assert head + s == s0;
  }

  /**
   * Removing `file:///` can join two pieces into a new `file:///`: the result of
   * normalising may itself still start with the scheme.
   */
  lemma DecodeCanLeaveScheme(x: string)
    requires 'f' !in x && '%' !in x && '\\' !in x
    ensures SimpleDecodePath(FileScheme + "fi" + FileScheme + "le:///" + x) == FileScheme + x
  {
    var raw := FileScheme + "fi" + FileScheme + "le:///" + x;
    var r := FileScheme + x;
    assert StartsWith(raw, FileScheme) by {
      assert raw[..|FileScheme|] == FileScheme;
    }
    assert Replace(raw, FileScheme, "") == r by {
      SchemeSplits();
      var t := "le:///" + x;
      assert raw == FileScheme + ("fi" + (FileScheme + t));
      RemovalJoins(FileScheme, "fi", t);
      assert "fi" + t == r;
    }
    assert Replace(r, EncodedSpace, " ") == r by {
      NotContainsWithoutFirstChar(r, EncodedSpace);
      ReplaceAbsent(r, EncodedSpace, " ");
    }
    assert Replace(r, "\\", "/") == r by {
      NotContainsWithoutFirstChar(r, "\\");
      ReplaceAbsent(r, "\\", "/");
    }
  }

  /** The last two decoding steps: each `%20` becomes a space, then each backslash a slash. */
  function Unescape(s: string): string
  {
    Replace(Replace(s, EncodedSpace, " "), "\\", "/")
  }

  /**
   * A part `q` that cannot be glued to its neighbours into a `%20` (it does not start with
   * `0` or `2` and has no `%` among its last two characters) has its `%20`s replaced
   * independently of the prefix and the suffix.
   */
  lemma EncodedSpaceAround(a: string, q: string, b: string)
    requires q != [] && q[0] != '0' && q[0] != '2'
    requires q[|q| - 1] != '%' && (|q| >= 2 ==> q[|q| - 2] != '%')
    ensures Replace(a + q + b, EncodedSpace, " ")
         == Replace(a, EncodedSpace, " ") + Replace(q, EncodedSpace, " ") + Replace(b, EncodedSpace, " ")
  {
    assert a + q + b == a + (q + b);
    SplitBeforeNoDigit(a, q + b);
    SplitAfterNoPercent(q, b);
  }

  /** No `%20` straddles a boundary followed by a character other than `0` and `2`. */
  lemma SplitBeforeNoDigit(x: string, y: string)
    requires y != [] && y[0] != '0' && y[0] != '2'
    ensures Replace(x + y, EncodedSpace, " ") == Replace(x, EncodedSpace, " ") + Replace(y, EncodedSpace, " ")
  {
    forall k | |x| - 3 < k < |x|
      ensures !OccursAt(x + y, EncodedSpace, k)
    {
      if 0 <= k {
        assert (x + y)[|x|] == y[0];
        MismatchBlocks(x + y, EncodedSpace, k, |x|);
      }
    }
    ReplaceSplit(x, y, EncodedSpace, " ");
  }

  /** No `%20` straddles a boundary preceded by two characters other than `%`. */
  lemma SplitAfterNoPercent(x: string, y: string)
    requires x != [] && x[|x| - 1] != '%' && (|x| >= 2 ==> x[|x| - 2] != '%')
    ensures Replace(x + y, EncodedSpace, " ") == Replace(x, EncodedSpace, " ") + Replace(y, EncodedSpace, " ")
  {
    forall k | |x| - 3 < k < |x|
      ensures !OccursAt(x + y, EncodedSpace, k)
    {
      if 0 <= k {
        assert (x + y)[k] == x[k];
        MismatchBlocks(x + y, EncodedSpace, k, k);
      }
    }
    ReplaceSplit(x, y, EncodedSpace, " ");
  }

  /** A character that differs from the pattern's character at its offset rules out a match. */
  lemma MismatchBlocks(s: string, pat: string, k: int, j: int)
    requires 0 <= k <= j < |s| && j - k < |pat| && s[j] != pat[j - k]
    ensures !OccursAt(s, pat, k)
  {
    if k + |pat| <= |s| {
      assert s[k..k + |pat|][j - k] == s[j];
    }
  }

  /** Such a part is decoded independently of the prefix and the suffix. */
  lemma UnescapeAround(a: string, q: string, b: string)
    requires q != [] && q[0] != '0' && q[0] != '2'
    requires q[|q| - 1] != '%' && (|q| >= 2 ==> q[|q| - 2] != '%')
    ensures Unescape(a + q + b) == Unescape(a) + Unescape(q) + Unescape(b)
  {
    EncodedSpaceAround(a, q, b);
    BackslashSplit(Replace(a, EncodedSpace, " "), Replace(q, EncodedSpace, " "), Replace(b, EncodedSpace, " "));
  }

  /** A one-character pattern never straddles a boundary, so each part is handled on its own. */
  lemma BackslashSplit(x: string, y: string, z: string)
    ensures Replace(x + y + z, "\\", "/") == Replace(x, "\\", "/") + Replace(y, "\\", "/") + Replace(z, "\\", "/")
  {
    assert x + y + z == x + (y + z);
    ReplaceSplit(x, y + z, "\\", "/");
    ReplaceSplit(y, z, "\\", "/");
  }

  /**
   * Outside a `file:///` path, a percent escape other than `%20` (such as `%2F`) is copied
   * verbatim wherever it occurs, and the text on either side is decoded on its own.
   */
  lemma DecodeKeepsOtherEscapes(a: string, x: char, y: char, b: string)
    requires !StartsWith(a + ['%', x, y] + b, FileScheme)
    requires x != '%' && y != '%' && x != '\\' && y != '\\' && !(x == '2' && y == '0')
    ensures SimpleDecodePath(a + ['%', x, y] + b) == Unescape(a) + ['%', x, y] + Unescape(b)
  {
    var q := ['%', x, y];
    UnescapeAround(a, q, b);
    ReplaceAbsent(q, EncodedSpace, " ");
    NotContainsWithoutFirstChar(q, "\\");
    ReplaceAbsent(q, "\\", "/");
  }

  /** Outside a `file:///` path, every `%20` becomes exactly one space. */
  lemma DecodeTurnsEncodedSpaceIntoSpace(a: string, b: string)
    requires !StartsWith(a + EncodedSpace + b, FileScheme)
    ensures SimpleDecodePath(a + EncodedSpace + b) == Unescape(a) + " " + Unescape(b)
  {
    UnescapeAround(a, EncodedSpace, b);
    ReplaceAtMatch(EncodedSpace, [], " ");
    assert EncodedSpace + [] == EncodedSpace;
    ReplaceAtMismatch(' ', [], "\\", "/");
    assert [' '] + [] == " ";
  }

  /** Outside a `file:///` path, every backslash becomes exactly one slash. */
  lemma DecodeTurnsBackslashIntoSlash(a: string, b: string)
    requires !StartsWith(a + "\\" + b, FileScheme)
    ensures SimpleDecodePath(a + "\\" + b) == Unescape(a) + "/" + Unescape(b)
  {
    UnescapeAround(a, "\\", b);
    ReplaceAtMismatch('\\', [], EncodedSpace, " ");
    assert ['\\'] + [] == "\\";
    ReplaceAtMatch("\\", [], "/");
    assert "\\" + [] == "\\";
  }

  /** Every character of `p[lo..hi]` is a dot. */
  predicate AllDots(p: string, lo: int, hi: int)
    requires 0 <= lo && hi <= |p|
    decreases hi - lo
  {
    lo >= hi || (p[lo] == '.' && AllDots(p, lo + 1, hi))
  }

  /**
   * `os.path.splitext(p)[1]` for POSIX paths: from the last dot of the last component on,
   * unless only dots precede that dot in the component.
   */
  function Extension(p: string): (ext: string)
    ensures ext == [] || (ext[0] == '.' && EndsWith(p, ext) && '.' !in ext[1..] && '/' !in ext)
  {
    var sep := RFind(p, '/');
    var dot := RFind(p, '.');
    if dot > sep && !AllDots(p, sep + 1, dot) then p[dot..] else []
  }

  /**
   * The extension is non-empty exactly when the last component has a dot preceded by some
   * character other than a dot, and then it runs from the last dot to the end.
   */
  lemma ExtensionIsAfterLastDot(p: string)
    ensures Extension(p) != []
        <==> (RFind(p, '/') < RFind(p, '.') && exists i :: RFind(p, '/') < i < RFind(p, '.') && p[i] != '.')
    ensures Extension(p) != [] ==> Extension(p) == p[RFind(p, '.')..]
  {
    AllDotsMeans(p, RFind(p, '/') + 1, RFind(p, '.'));
  }

  lemma {:induction false} AllDotsMeans(p: string, lo: int, hi: int)
    requires 0 <= lo && hi <= |p|
    ensures AllDots(p, lo, hi) <==> forall i :: lo <= i < hi ==> p[i] == '.'
    decreases hi - lo
  {
    if lo < hi {
      AllDotsMeans(p, lo + 1, hi);
    }
  }

  /**
   * A file named `n + e`, where `e` is a dot followed by no further dot and `n` is not made
   * of dots only, has extension `e`: `splitext("/docs/report.v2.pdf")[1] == ".pdf"`.
   */
  lemma ExtensionOfName(p: string, n: string, e: string)
    requires Basename(p) == n + e
    requires exists i :: 0 <= i < |n| && n[i] != '.'
    requires e != [] && e[0] == '.' && '.' !in e[1..]
    ensures Extension(p) == e
  {
    BasenameFollowsLastSlash(p);
    var j := NonDotInName(p, n, e);
    LastDotAt(p, e);
    ExtensionIsAfterLastDot(p);
    assert RFind(p, '/') < j < RFind(p, '.') && p[j] != '.';
  }

  /** A last component `n + e` ends the path with `e`, and `n`'s non-dot lies between the last slash and `e`. */
  lemma NonDotInName(p: string, n: string, e: string) returns (j: int)
    requires p[RFind(p, '/') + 1..] == n + e
    requires exists i :: 0 <= i < |n| && n[i] != '.'
    ensures EndsWith(p, e)
    ensures RFind(p, '/') < j < |p| - |e| && p[j] != '.'
  {
    var sep := RFind(p, '/');
    var i :| 0 <= i < |n| && n[i] != '.';
    j := sep + 1 + i;
    assert p[j] == p[sep + 1..][i] == (n + e)[i];
    assert p[|p| - |e|..] == p[sep + 1..][|n|..] == (n + e)[|n|..];
  }

  /** A path ending in a dot followed by no dot has its last dot at the start of that ending. */
  lemma LastDotAt(p: string, e: string)
    requires EndsWith(p, e) && e != [] && e[0] == '.' && '.' !in e[1..]
    ensures RFind(p, '.') == |p| - |e|
  {
    var d := |p| - |e|;
    assert p[d..] == e;
    assert p[d] == '.' by {
      assert p[d..][0] == e[0];
    }
    forall j | d < j < |p|
      ensures p[j] != '.'
    {
      assert p[j] == e[j - d] == e[1..][j - d - 1];
    }
  }

  /** Lowering keeps a suffix without upper-case ASCII letters. */
  lemma LowerEndsWith(s: string, t: string)
    requires EndsWith(s, t) && forall i :: 0 <= i < |t| ==> !('A' <= t[i] <= 'Z')
    ensures EndsWith(Lower(s), t)
  {
    var d := |s| - |t|;
    forall j | 0 <= j < |t|
      ensures Lower(s)[d..][j] == t[j]
    {
      assert s[d..][j] == s[d + j] == t[j];
    }
  }

  /** A string without upper-case ASCII letters is its own lower-case form. */
  lemma LowerKeepsLowercase(s: string)
    requires forall i :: 0 <= i < |s| ==> !('A' <= s[i] <= 'Z')
    ensures Lower(s) == s
  {
  }

  /** A path ending in `.docx` still ends in `.docx` once lowered. */
  lemma LoweredDocx(s: string)
    requires EndsWith(s, ".docx")
    ensures EndsWith(Lower(s), ".docx")
  {
    LowerEndsWith(s, ".docx");
  }

  /** `.pdf` and `.txt` are already lower-case. */
  lemma LoweredPdfTxt()
    ensures Lower(".pdf") == ".pdf" && Lower(".txt") == ".txt"
  {
    LowerKeepsLowercase(".pdf");
    LowerKeepsLowercase(".txt");
  }

  /** `.PDF` lowers to `.pdf` without being `.pdf`. */
  lemma LoweredUpperPdf()
    ensures Lower(".PDF") == ".pdf" && ".PDF" != ".pdf" && ".PDF" != ".txt"
  {
    assert ".PDF"[1] != ".pdf"[1] && ".PDF"[1] != ".txt"[1];
  }

  /** `.csv` is already lower-case, and neither `.pdf` nor `.txt`. */
  lemma LoweredCsv()
    ensures Lower(".csv") == ".csv" && ".csv" !in [".pdf", ".txt"]
  {
    LowerKeepsLowercase(".csv");
  }

  /** `lower()` maps `.` to `.` and nothing else to it. */
  lemma LowerKeepsDots(s: string)
    ensures forall i :: 0 <= i < |s| ==> (Lower(s)[i] == '.' <==> s[i] == '.')
  {
  }

  /** `os.path.basename(p)` for POSIX paths: the longest suffix without a slash. */
  function Basename(p: string): (name: string)
    ensures '/' !in name && EndsWith(p, name)
    ensures |name| < |p| ==> p[|p| - |name| - 1] == '/'
  {
    if p == [] || p[|p| - 1] == '/' then [] else Basename(p[..|p| - 1]) + [p[|p| - 1]]
  }

  /** The basename is what follows the last slash, as `p[p.rfind("/") + 1:]`. */
  lemma BasenameFollowsLastSlash(p: string)
    ensures Basename(p) == p[RFind(p, '/') + 1..]
  {
    var name := Basename(p);
    var k := |p| - |name|;
    assert p[k..] == name;
    forall j | k <= j < |p|
      ensures p[j] != '/'
    {
      assert p[j] == p[k..][j - k];
    }
    LastSlashBefore(p, k);
  }

  /** A slash right before a slash-free tail is the last slash. */
  lemma LastSlashBefore(p: string, k: int)
    requires 0 <= k <= |p| && (0 < k ==> p[k - 1] == '/')
    requires forall j :: k <= j < |p| ==> p[j] != '/'
    ensures RFind(p, '/') == k - 1
  {
    if 0 < k {
      assert RFind(p, '/') >= k - 1;
    }
  }

  /** `str.lower` on ASCII letters; other characters are kept. */
  function LowerChar(c: char): char
  {
    if 'A' <= c <= 'Z' then (c as int + 32) as char else c
  }

  function Lower(s: string): (r: string)
    ensures |r| == |s| && forall i :: 0 <= i < |s| ==> r[i] == LowerChar(s[i])
  {
    if s == [] then [] else [LowerChar(s[0])] + Lower(s[1..])
  }
}
