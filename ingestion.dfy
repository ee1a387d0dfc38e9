/**
 * `build_rag_tool_from_files`: the cache key, the extension filter, the extraction of
 * every surviving file and the assembly of the retrieval index, with the process-wide
 * cache from cache key to index. `os.path.abspath`, `os.path.getmtime`/`exists` and the
 * document readers are inputs (`Env`); the retrieval index records the texts it is given.
 */
module Ingestion {
  import opened Wrappers
  import opened StrOps
  import opened Paths
  import opened Extractor

  /** The cache key: `(absolute path, modification time)` for each existing input path. */
  type CacheKey = seq<(string, int)>

  /**
   * The environment a build sees: `os.path.abspath`, the modification time of every path
   * `os.path.exists` accepts (and of no other), and the document readers.
   */
  datatype Env = Env(abspath: string -> string, mtime: map<string, int>, disk: Disk)

  // ---------------------------------------------------------------------------------------
  // Cache key

  /** `tuple((abspath(p), getmtime(p)) for p in file_paths if exists(p))`. */
  function KeyOf(paths: seq<string>, abspath: string -> string, mtime: map<string, int>): (key: CacheKey)
    ensures |key| <= |paths|
    ensures (forall p :: p in paths ==> p in mtime) ==> |key| == |paths|
  {
    if paths == [] then []
    else
      (if paths[0] in mtime then [(abspath(paths[0]), mtime[paths[0]])] else [])
      + KeyOf(paths[1..], abspath, mtime)
  }

  /** The key of a concatenation is the concatenation of the keys: input order is kept. */
  lemma {:induction false} KeyOfAppend(a: seq<string>, b: seq<string>, abspath: string -> string, mtime: map<string, int>)
    ensures KeyOf(a + b, abspath, mtime) == KeyOf(a, abspath, mtime) + KeyOf(b, abspath, mtime)
    decreases |a|
  {
    if a == [] {
      assert a + b == b;
    } else {
      assert (a + b)[1..] == a[1..] + b;
      KeyOfAppend(a[1..], b, abspath, mtime);
    }
  }

  /** A path that does not exist leaves no trace in the key, wherever it stands. */
  lemma KeyIgnoresMissing(a: seq<string>, p: string, b: seq<string>, abspath: string -> string, mtime: map<string, int>)
    requires p !in mtime
    ensures KeyOf(a + [p] + b, abspath, mtime) == KeyOf(a + b, abspath, mtime)
  {
    KeyOfAppend(a + [p], b, abspath, mtime);
    KeyOfAppend(a, [p], abspath, mtime);
    KeyOfAppend(a, b, abspath, mtime);
    assert KeyOf([p], abspath, mtime) == [];
  }

  /** The key holds exactly the pairs `(abspath(p), mtime(p))` of the input paths that exist. */
  lemma {:induction false} KeyMembership(paths: seq<string>, abspath: string -> string, mtime: map<string, int>, e: (string, int))
    ensures e in KeyOf(paths, abspath, mtime)
        <==> exists p :: p in paths && p in mtime && e == (abspath(p), mtime[p])
    decreases |paths|
  {
    if paths != [] {
      KeyMembership(paths[1..], abspath, mtime, e);
      assert paths[0] in paths;
      assert forall raw :: raw in paths <==> raw == paths[0] || raw in paths[1..];
    }
  }

  /** Giving an existing input file a new modification time gives a new key. */
  lemma {:induction false} KeyDetectsNewMtime(paths: seq<string>, abspath: string -> string, mtime: map<string, int>, p: string, t: int)
    requires p in paths && p in mtime && t != mtime[p]
    ensures KeyOf(paths, abspath, mtime[p := t]) != KeyOf(paths, abspath, mtime)
    decreases |paths|
  {
    var mtime' := mtime[p := t];
    var q := paths[0];
    var rest := KeyOf(paths[1..], abspath, mtime);
    var rest' := KeyOf(paths[1..], abspath, mtime');
    var h := if q in mtime then [(abspath(q), mtime[q])] else [];
    var h' := if q in mtime' then [(abspath(q), mtime'[q])] else [];
    assert KeyOf(paths, abspath, mtime) == h + rest;
    assert KeyOf(paths, abspath, mtime') == h' + rest';
    if q == p {
      assert h[0] != h'[0];
      assert (h + rest)[0] != (h' + rest')[0];
    } else {
      assert p in paths[1..];
      KeyDetectsNewMtime(paths[1..], abspath, mtime, p, t);
      assert h == h';
      assert (h + rest)[|h|..] == rest && (h' + rest')[|h|..] == rest';
    }
  }

  /** The key follows input order: listing two existing files the other way round changes it. */
  lemma KeyIsOrdered(p: string, q: string, abspath: string -> string, mtime: map<string, int>)
    requires p in mtime && q in mtime && abspath(p) != abspath(q)
    ensures KeyOf([p, q], abspath, mtime) != KeyOf([q, p], abspath, mtime)
  {
    assert KeyOf([p, q], abspath, mtime)[0] == (abspath(p), mtime[p]);
    assert KeyOf([q, p], abspath, mtime)[0] == (abspath(q), mtime[q]);
  }

  // ---------------------------------------------------------------------------------------
  // Preparing the files

  /** `simple_decode_path(os.path.abspath(raw_path))`. */
  function UsablePath(raw: string, abspath: string -> string): string
  {
    SimpleDecodePath(abspath(raw))
  }

  /** The build's filter: `os.path.splitext(usable_path)[1].lower() in [".pdf", ".txt"]`. */
  predicate Accepted(usable: string)
  {
    Lower(Extension(usable)) in [".pdf", ".txt"]
  }

  /** `f` applied to each element, in order. */
  function MapSeq<A, B>(s: seq<A>, f: A -> B): (r: seq<B>)
    ensures |r| == |s|
  {
    if s == [] then [] else [f(s[0])] + MapSeq(s[1..], f)
  }

  lemma {:induction false} MapSeqIndex<A, B>(s: seq<A>, f: A -> B, i: int)
    requires 0 <= i < |s|
    ensures MapSeq(s, f)[i] == f(s[i])
    decreases |s|
  {
    if i > 0 {
      MapSeqIndex(s[1..], f, i - 1);
    }
  }

  lemma {:induction false} MapSeqSnoc<A, B>(s: seq<A>, x: A, f: A -> B)
    ensures MapSeq(s + [x], f) == MapSeq(s, f) + [f(x)]
    decreases |s|
  {
    if s == [] {
      assert [x][1..] == [];
    } else {
      assert (s + [x])[0] == s[0];
      assert (s + [x])[1..] == s[1..] + [x];
      MapSeqSnoc(s[1..], x, f);
    }
  }

  /** The usable path of every input path, in input order. */
  function Normalised(paths: seq<string>, abspath: string -> string): seq<string>
  {
    MapSeq(paths, raw => UsablePath(raw, abspath))
  }

  /** `(u, os.path.basename(u))` for each usable path `u` that `keep` accepts, in order. */
  function Select(usables: seq<string>, keep: string -> bool): (selected: seq<(string, string)>)
    ensures |selected| <= |usables|
  {
    if usables == [] then []
    else
      (if keep(usables[0]) then [(usables[0], Basename(usables[0]))] else [])
      + Select(usables[1..], keep)
  }

  /** `prepared_files`: the accepted usable paths with their source names, in order. */
  function Prepared(usables: seq<string>): seq<(string, string)>
  {
    Select(usables, Accepted)
  }

  /** Selecting from a concatenation selects from each part: survivors keep their order. */
  lemma {:induction false} SelectAppend(a: seq<string>, b: seq<string>, keep: string -> bool)
    ensures Select(a + b, keep) == Select(a, keep) + Select(b, keep)
    decreases |a|
  {
    if a == [] {
      assert a + b == b;
    } else {
      assert (a + b)[0] == a[0];
      assert (a + b)[1..] == a[1..] + b;
      var h := if keep(a[0]) then [(a[0], Basename(a[0]))] else [];
      assert Select(a + b, keep) == h + Select(a[1..] + b, keep);
      assert Select(a, keep) == h + Select(a[1..], keep);
      SelectAppend(a[1..], b, keep);
      assert h + (Select(a[1..], keep) + Select(b, keep)) == (h + Select(a[1..], keep)) + Select(b, keep);
    }
  }

  /** One more input path adds at most its own entry to the selection, at the end. */
  lemma SelectMapSnoc(paths: seq<string>, x: string, f: string -> string, keep: string -> bool)
    ensures Select(MapSeq(paths + [x], f), keep)
         == Select(MapSeq(paths, f), keep) + (if keep(f(x)) then [(f(x), Basename(f(x)))] else [])
  {
    MapSeqSnoc(paths, x, f);
    SelectAppend(MapSeq(paths, f), [f(x)], keep);
    assert [f(x)][1..] == [];
  }

  /** One more input path adds at most its own prepared entry, at the end. */
  lemma PreparedSnoc(paths: seq<string>, x: string, abspath: string -> string)
    ensures var u := UsablePath(x, abspath);
      Prepared(Normalised(paths + [x], abspath))
      == Prepared(Normalised(paths, abspath)) + (if Accepted(u) then [(u, Basename(u))] else [])
  {
    SelectMapSnoc(paths, x, raw => UsablePath(raw, abspath), Accepted);
  }

  lemma {:induction false} SelectMembership(usables: seq<string>, keep: string -> bool, entry: (string, string))
    ensures entry in Select(usables, keep)
        <==> entry.0 in usables && keep(entry.0) && entry.1 == Basename(entry.0)
    decreases |usables|
  {
    if usables != [] {
      SelectMembership(usables[1..], keep, entry);
      assert forall u :: u in usables <==> u == usables[0] || u in usables[1..];
    }
  }

  /**
   * An entry is prepared exactly when it is the usable path of some input, that path passes
   * the filter, and the entry's source name is the path's basename.
   */
  lemma PreparedMembership(paths: seq<string>, abspath: string -> string, entry: (string, string))
    ensures entry in Prepared(Normalised(paths, abspath))
        <==> (exists raw :: raw in paths && UsablePath(raw, abspath) == entry.0)
             && Accepted(entry.0) && entry.1 == Basename(entry.0)
  {
    var usables := Normalised(paths, abspath);
    SelectMembership(usables, Accepted, entry);
    if entry.0 in usables {
      var i :| 0 <= i < |usables| && usables[i] == entry.0;
      MapSeqIndex(paths, raw => UsablePath(raw, abspath), i);
      assert paths[i] in paths;
    }
    if exists raw :: raw in paths && UsablePath(raw, abspath) == entry.0 {
      var raw :| raw in paths && UsablePath(raw, abspath) == entry.0;
      var i :| 0 <= i < |paths| && paths[i] == raw;
      MapSeqIndex(paths, raw => UsablePath(raw, abspath), i);
      assert usables[i] == entry.0;
    }
  }

  /**
   * A file named `n + e`, with `n` not made of dots only, passes the filter when `e`
   * lowers to `.pdf` or `.txt`: `/docs/a.pdf`, `/docs/c.txt` and `/docs/X.PDF` all do.
   */
  lemma AcceptedByName(usable: string, n: string, e: string)
    requires Basename(usable) == n + e && (exists i :: 0 <= i < |n| && n[i] != '.')
    requires Lower(e) in [".pdf", ".txt"]
    ensures Accepted(usable) && Extension(usable) == e
  {
    var l := Lower(e);
    LowerKeepsDots(e);
    assert |l| == 4 && l[0] == '.' && l[1] != '.' && l[2] != '.' && l[3] != '.';
    assert '.' !in e[1..] by {
      assert e[1..] == [e[1], e[2], e[3]];
    }
    ExtensionOfName(usable, n, e);
  }

  /** A path ending in `.docx`, whatever the case of its letters, never passes the filter. */
  lemma DocxNeverPrepared(usable: string)
    requires EndsWith(Lower(usable), ".docx")
    ensures !Accepted(usable)
  {
    var ext := Extension(usable);
    if ext != [] {
      var last := |usable| - 1;
      assert ext[|ext| - 1] == usable[last];
      assert Lower(usable)[last] == 'x' by {
        assert Lower(usable)[|usable| - 5..][4] == ".docx"[4];
      }
      assert Lower(ext)[|ext| - 1] == 'x';
    }
  }

  /**
   * The filter lower-cases the extension but the dispatch does not: an accepted path whose
   * suffix is not literally `.pdf` or `.txt` (such as `X.PDF`) extracts to `""`.
   */
  lemma MixedCaseAcceptedExtractsNothing(usable: string, disk: Disk)
    requires Accepted(usable) && !EndsWith(usable, ".pdf") && !EndsWith(usable, ".txt")
    ensures ExtractTextFromFile(usable, disk) == Success("")
  {
    var ext := Extension(usable);
    assert |ext| == 4;
    assert usable[|usable| - 1] == ext[3];
    assert LowerChar(ext[3]) == 'f' || LowerChar(ext[3]) == 't';
  }

  /**
   * Such files exist: a file named `n + e` whose extension `e` lowers to `.pdf` or `.txt`
   * but is not literally one of them (`X.PDF`, `notes.Txt`) is prepared, yet its task finds
   * only `""` and contributes no text to the index.
   */
  lemma MixedCaseIsPreparedButEmpty(usable: string, n: string, e: string, source: string, disk: Disk)
    requires Basename(usable) == n + e && (exists i :: 0 <= i < |n| && n[i] != '.')
    requires Lower(e) in [".pdf", ".txt"] && e != ".pdf" && e != ".txt"
    ensures Accepted(usable)
    ensures ExtractTextFromFile(usable, disk) == Success("")
    ensures ExtractForRag((usable, source), disk) == Success(None)
  {
    AcceptedByName(usable, n, e);
    assert EndsWith(usable, e);
    OtherSuffix(usable, e);
    MixedCaseAcceptedExtractsNothing(usable, disk);
    EmptyTextAddsNothing((usable, source), disk);
  }

  /** A path ending in a four-character suffix other than `.pdf` and `.txt` ends in neither. */
  lemma OtherSuffix(usable: string, e: string)
    requires EndsWith(usable, e) && |e| == 4 && e != ".pdf" && e != ".txt"
    ensures !EndsWith(usable, ".pdf") && !EndsWith(usable, ".txt")
  {
    assert usable[|usable| - 4..] == e;
  }

  /** A file that extracts to `""` contributes no text. */
  lemma EmptyTextAddsNothing(entry: (string, string), disk: Disk)
    requires ExtractTextFromFile(entry.0, disk) == Success("")
    ensures ExtractForRag(entry, disk) == Success(None)
  {
    assert AllSpace("");
  }

  /** A path without `%`, backslash or leading `file:///` is usable as it stands. */
  lemma PlainPathIsUsable(p: string)
    requires '%' !in p && '\\' !in p && !StartsWith(p, FileScheme)
    ensures SimpleDecodePath(p) == p
  {
    NotContainsWithoutFirstChar(p, EncodedSpace);
    DecodeFixedPoint(p);
  }

  /** A file `name` in directory `dir` has `name` as its usable path's base name. */
  lemma {:induction false} BasenameAfterSlash(dir: string, name: string)
    requires '/' !in name
    ensures Basename(dir + "/" + name) == name
    decreases |name|
  {
    var p := dir + "/" + name;
    if name == [] {
      assert p[|p| - 1] == '/';
    } else {
      var init := name[..|name| - 1];
      assert p[..|p| - 1] == dir + "/" + init;
      assert p[|p| - 1] == name[|name| - 1];
      BasenameAfterSlash(dir, init);
      assert init + [name[|name| - 1]] == name;
    }
  }

  /** A file name as it comes from a folder listing: no slash, no `%` and no backslash. */
  predicate PlainName(name: string)
  {
    '/' !in name && '%' !in name && '\\' !in name
  }

  /** An absolute directory path without `%` and backslash. */
  predicate PlainDir(dir: string)
  {
    dir != [] && dir[0] == '/' && '%' !in dir && '\\' !in dir
  }

  /** A plain file name resolved under a plain directory is usable as it stands. */
  lemma FileUnder(dir: string, abspath: string -> string, name: string)
    requires PlainDir(dir) && PlainName(name)
    requires forall p :: abspath(p) == dir + "/" + p
    ensures UsablePath(name, abspath) == abspath(name)
    ensures Basename(abspath(name)) == name
  {
    var u := abspath(name);
    assert u == dir + "/" + name;
    assert u[0] == '/' && FileScheme[0] == 'f';
    assert '%' !in u && '\\' !in u;
    PlainPathIsUsable(u);
    BasenameAfterSlash(dir, name);
  }

  /**
   * The four files `a.pdf`, `b.docx`, `c.txt` and `d.csv` (for any stems without dots),
   * resolved under one plain directory: only the PDF and the text file are prepared, in
   * this order, each with its file name as the source name.
   */
  lemma FourFileExample(dir: string, abspath: string -> string, a: string, b: string, c: string, d: string)
    requires PlainDir(dir) && forall p :: abspath(p) == dir + "/" + p
    requires PlainName(a) && PlainName(b) && PlainName(c) && PlainName(d)
    requires a != [] && c != [] && d != [] && '.' !in a && '.' !in c && '.' !in d
    ensures Prepared(Normalised([a + ".pdf", b + ".docx", c + ".txt", d + ".csv"], abspath))
         == [(abspath(a + ".pdf"), a + ".pdf"), (abspath(c + ".txt"), c + ".txt")]
  {
    var raws := [a + ".pdf", b + ".docx", c + ".txt", d + ".csv"];
    var ua, ub, uc, ud := abspath(raws[0]), abspath(raws[1]), abspath(raws[2]), abspath(raws[3]);
    ExampleAccepted(dir, abspath, a, ".pdf");
    ExampleAccepted(dir, abspath, c, ".txt");
    ExampleDocx(dir, abspath, b);
    ExampleCsv(dir, abspath, d);
    NormalisedFour(raws, abspath);
    SelectFirstAndThird(ua, ub, uc, ud, Accepted);
  }

  /** The usable paths of four input paths. */
  lemma NormalisedFour(raws: seq<string>, abspath: string -> string)
    requires |raws| == 4
    ensures Normalised(raws, abspath)
         == [UsablePath(raws[0], abspath), UsablePath(raws[1], abspath),
             UsablePath(raws[2], abspath), UsablePath(raws[3], abspath)]
  {
    var f := raw => UsablePath(raw, abspath);
    MapSeqIndex(raws, f, 0);
    MapSeqIndex(raws, f, 1);
    MapSeqIndex(raws, f, 2);
    MapSeqIndex(raws, f, 3);
  }

  /** Selecting from four paths of which only the first and the third are kept. */
  lemma SelectFirstAndThird(u0: string, u1: string, u2: string, u3: string, keep: string -> bool)
    requires keep(u0) && !keep(u1) && keep(u2) && !keep(u3)
    ensures Select([u0, u1, u2, u3], keep) == [(u0, Basename(u0)), (u2, Basename(u2))]
  {
    var s0, s1, s2, s3 := [u0, u1, u2, u3], [u1, u2, u3], [u2, u3], [u3];
    assert Select(s3, keep) == [] by {
      assert s3[0] == u3 && s3[1..] == [];
    }
    assert Select(s2, keep) == [(u2, Basename(u2))] by {
      assert s2[0] == u2 && s2[1..] == s3;
    }
    assert Select(s1, keep) == [(u2, Basename(u2))] by {
      assert s1[0] == u1 && s1[1..] == s2;
    }
    assert s0[0] == u0 && s0[1..] == s1;
  }

  /** `stem + ext` is accepted with its name as source name, for `.pdf` or `.txt`. */
  lemma ExampleAccepted(dir: string, abspath: string -> string, stem: string, ext: string)
    requires PlainDir(dir) && forall p :: abspath(p) == dir + "/" + p
    requires PlainName(stem) && stem != [] && '.' !in stem
    requires ext == ".pdf" || ext == ".txt"
    ensures UsablePath(stem + ext, abspath) == abspath(stem + ext)
    ensures Basename(abspath(stem + ext)) == stem + ext
    ensures Accepted(abspath(stem + ext))
  {
    FileUnder(dir, abspath, stem + ext);
    assert stem[0] != '.';
    LoweredPdfTxt();
    AcceptedByName(abspath(stem + ext), stem, ext);
  }

  /** `stem.docx` is rejected. */
  lemma ExampleDocx(dir: string, abspath: string -> string, stem: string)
    requires PlainDir(dir) && forall p :: abspath(p) == dir + "/" + p
    requires PlainName(stem)
    ensures UsablePath(stem + ".docx", abspath) == abspath(stem + ".docx")
    ensures !Accepted(abspath(stem + ".docx"))
  {
    var u := abspath(stem + ".docx");
    FileUnder(dir, abspath, stem + ".docx");
    assert u[|u| - 5..] == ".docx" by {
      assert u == (dir + "/" + stem) + ".docx";
    }
    LoweredDocx(u);
    DocxNeverPrepared(u);
  }

  /**
   * `stem.PDF` passes the filter, yet its task contributes nothing: the extractor's suffix
   * test is case-sensitive, so the file is read as an unsupported type.
   */
  lemma UpperCasePdfExample(dir: string, abspath: string -> string, stem: string, disk: Disk)
    requires PlainDir(dir) && forall p :: abspath(p) == dir + "/" + p
    requires PlainName(stem) && stem != [] && '.' !in stem
    ensures UsablePath(stem + ".PDF", abspath) == abspath(stem + ".PDF")
    ensures Accepted(abspath(stem + ".PDF"))
    ensures ExtractForRag((abspath(stem + ".PDF"), stem + ".PDF"), disk) == Success(None)
  {
    FileUnder(dir, abspath, stem + ".PDF");
    assert stem[0] != '.';
    LoweredUpperPdf();
    MixedCaseIsPreparedButEmpty(abspath(stem + ".PDF"), stem, ".PDF", stem + ".PDF", disk);
  }

  /** `stem.csv` is rejected. */
  lemma ExampleCsv(dir: string, abspath: string -> string, stem: string)
    requires PlainDir(dir) && forall p :: abspath(p) == dir + "/" + p
    requires PlainName(stem) && stem != [] && '.' !in stem
    ensures UsablePath(stem + ".csv", abspath) == abspath(stem + ".csv")
    ensures !Accepted(abspath(stem + ".csv"))
  {
    FileUnder(dir, abspath, stem + ".csv");
    assert stem[0] != '.';
    ExtensionOfName(abspath(stem + ".csv"), stem, ".csv");
    LoweredCsv();
  }

  // ---------------------------------------------------------------------------------------
  // Extracting and assembling

  /** `extract_for_rag`: the text and source name of a file, `None` when the text is blank. */
  function ExtractForRag(entry: (string, string), disk: Disk): (r: Result<Option<(string, string)>, Failure>)
    ensures r.Failure? <==> ExtractTextFromFile(entry.0, disk).Failure?
    ensures r.Failure? ==> r.error == ExtractTextFromFile(entry.0, disk).error
    ensures r.Success? && r.value.Some? ==>
              r.value.value == (ExtractTextFromFile(entry.0, disk).value, entry.1)
              && !AllSpace(r.value.value.0)
    ensures r.Success? && r.value.None? ==> AllSpace(ExtractTextFromFile(entry.0, disk).value)
  {
    match ExtractTextFromFile(entry.0, disk)
    case Failure(e) => Failure(e)
    case Success(text) =>
      StripEmptyIffAllSpace(text);
      if Strip(text) == [] then Success(None) else Success(Some((text, entry.1)))
  }

  /** `list(map(f, xs))` for an `f` that may raise: every result in order, or the first exception. */
  function MapAll<T, U, E>(xs: seq<T>, f: T -> Result<U, E>): (r: Result<seq<U>, E>)
    ensures r.Success? <==> forall i :: 0 <= i < |xs| ==> f(xs[i]).Success?
    ensures r.Success? ==> |r.value| == |xs| && forall i :: 0 <= i < |xs| ==> f(xs[i]) == Success(r.value[i])
  {
    if xs == [] then Success([])
    else
      match f(xs[0])
      case Failure(e) => Failure(e)
      case Success(first) =>
        match MapAll(xs[1..], f)
        case Failure(e) => Failure(e)
        case Success(rest) => Success([first] + rest)
  }

  lemma {:induction false} MapAllRaisesFirst<T, U, E>(xs: seq<T>, f: T -> Result<U, E>, i: nat)
    requires i < |xs| && f(xs[i]).Failure?
    requires forall j :: 0 <= j < i ==> f(xs[j]).Success?
    ensures MapAll(xs, f) == Failure(f(xs[i]).error)
    decreases i
  {
    if i > 0 {
      assert forall j :: 0 <= j < i - 1 ==> xs[1..][j] == xs[j + 1];
      MapAllRaisesFirst(xs[1..], f, i - 1);
    }
  }

  /**
   * `list(executor.map(extract_for_rag, prepared_files))`: one result per file in input
   * order, or the exception of the first file (in that order) whose extraction raises.
   */
  function MapExtract(prepared: seq<(string, string)>, disk: Disk): (r: Result<seq<Option<(string, string)>>, Failure>)
    ensures r.Success? <==> forall i :: 0 <= i < |prepared| ==> ExtractForRag(prepared[i], disk).Success?
    ensures r.Success? ==>
              |r.value| == |prepared|
              && forall i :: 0 <= i < |prepared| ==> ExtractForRag(prepared[i], disk) == Success(r.value[i])
  {
    MapAll(prepared, entry => ExtractForRag(entry, disk))
  }

  /** The exception raised is that of the first file whose extraction raises. */
  lemma MapExtractRaisesFirst(prepared: seq<(string, string)>, disk: Disk, i: nat)
    requires i < |prepared| && ExtractForRag(prepared[i], disk).Failure?
    requires forall j :: 0 <= j < i ==> ExtractForRag(prepared[j], disk).Success?
    ensures MapExtract(prepared, disk) == Failure(ExtractForRag(prepared[i], disk).error)
  {
    MapAllRaisesFirst(prepared, entry => ExtractForRag(entry, disk), i);
  }

  /** The texts handed to `rag_tool.add`, in order: those of the results that are not `None`. */
  function AddedTexts(results: seq<Option<(string, string)>>): seq<string>
  {
    if results == [] then []
    else (if results[0].Some? then [results[0].value.0] else []) + AddedTexts(results[1..])
  }

  lemma {:induction false} AddedTextsSnoc(results: seq<Option<(string, string)>>, last: Option<(string, string)>)
    ensures AddedTexts(results + [last])
         == AddedTexts(results) + (if last.Some? then [last.value.0] else [])
    decreases |results|
  {
    var tail := if last.Some? then [last.value.0] else [];
    if results == [] {
      assert results + [last] == [last];
      assert AddedTexts([last]) == tail + AddedTexts([last][1..]);
    } else {
      var head := if results[0].Some? then [results[0].value.0] else [];
      assert (results + [last])[0] == results[0];
      assert (results + [last])[1..] == results[1..] + [last];
      assert AddedTexts(results + [last]) == head + AddedTexts(results[1..] + [last]);
      AddedTextsSnoc(results[1..], last);
      assert head + (AddedTexts(results[1..]) + tail) == (head + AddedTexts(results[1..])) + tail;
    }
  }

  /** The texts of a prefix one result longer: what the loop has added after one more pass. */
  lemma AddedTextsPrefix(results: seq<Option<(string, string)>>, i: int)
    requires 0 <= i < |results|
    ensures AddedTexts(results[..i + 1])
         == AddedTexts(results[..i]) + (if results[i].Some? then [results[i].value.0] else [])
  {
    assert results[..i + 1] == results[..i] + [results[i]];
    AddedTextsSnoc(results[..i], results[i]);
  }

  /** What a build computes: the texts added to the index, or the exception that escapes. */
  function BuildTexts(paths: seq<string>, env: Env): Result<seq<string>, Failure>
  {
    match MapExtract(Prepared(Normalised(paths, env.abspath)), env.disk)
    case Failure(e) => Failure(e)
    case Success(results) => Success(AddedTexts(results))
  }

  // A second description of the same build: extract everything, then drop the blank texts.

  /** The extracted text of every prepared file, in order, or the first exception. */
  function AllTexts(prepared: seq<(string, string)>, disk: Disk): (r: Result<seq<string>, Failure>)
    ensures r.Success? ==>
              |r.value| == |prepared|
              && forall i :: 0 <= i < |prepared| ==> ExtractTextFromFile(prepared[i].0, disk) == Success(r.value[i])
  {
    if prepared == [] then Success([])
    else
      match ExtractTextFromFile(prepared[0].0, disk)
      case Failure(e) => Failure(e)
      case Success(first) =>
        match AllTexts(prepared[1..], disk)
        case Failure(e) => Failure(e)
        case Success(rest) => Success([first] + rest)
  }

  /** The texts that are not blank after `strip()`, in order. */
  function NonBlank(texts: seq<string>): (r: seq<string>)
    ensures |r| <= |texts|
    ensures forall t :: t in r <==> t in texts && !AllSpace(t)
  {
    if texts == [] then []
    else (if AllSpace(texts[0]) then [] else [texts[0]]) + NonBlank(texts[1..])
  }

  lemma {:induction false} MapExtractIsNonBlankTexts(prepared: seq<(string, string)>, disk: Disk)
    ensures MapExtract(prepared, disk).Failure? <==> AllTexts(prepared, disk).Failure?
    ensures MapExtract(prepared, disk).Failure? ==>
              MapExtract(prepared, disk).error == AllTexts(prepared, disk).error
    ensures MapExtract(prepared, disk).Success? ==>
              AddedTexts(MapExtract(prepared, disk).value) == NonBlank(AllTexts(prepared, disk).value)
    decreases |prepared|
  {
    if prepared != [] {
      MapExtractIsNonBlankTexts(prepared[1..], disk);
    }
  }

  /**
   * A build adds exactly the non-blank extracted texts of the prepared files, in their
   * order, and raises the first exception an extraction raises.
   */
  lemma BuildAddsNonBlankTextsInOrder(paths: seq<string>, env: Env)
    ensures BuildTexts(paths, env) == match AllTexts(Prepared(Normalised(paths, env.abspath)), env.disk)
                                      case Failure(e) => Failure(e)
                                      case Success(texts) => Success(NonBlank(texts))
  {
    MapExtractIsNonBlankTexts(Prepared(Normalised(paths, env.abspath)), env.disk);
  }

  /** Every added text comes from a prepared file and is not blank. */
  lemma AddedTextsComeFromPreparedFiles(paths: seq<string>, env: Env, t: string)
    requires BuildTexts(paths, env).Success? && t in BuildTexts(paths, env).value
    ensures !AllSpace(t)
    ensures exists i :: 0 <= i < |Prepared(Normalised(paths, env.abspath))|
              && ExtractTextFromFile(Prepared(Normalised(paths, env.abspath))[i].0, env.disk) == Success(t)
  {
    var prepared := Prepared(Normalised(paths, env.abspath));
    BuildAddsNonBlankTextsInOrder(paths, env);
    var texts := AllTexts(prepared, env.disk).value;
    var i :| 0 <= i < |texts| && texts[i] == t;
    assert ExtractTextFromFile(prepared[i].0, env.disk) == Success(t);
  }

  /**
   * The key looks only at files that exist (line 111), but the filter never does: a listed
   * path that is missing, accepted by its extension, and whose reader raises for it (a
   * missing `.txt` makes `open` raise) leaves the key as it would be without it, yet it is
   * prepared and makes the whole build raise.
   */
  lemma MissingFileFailsBuild(a: seq<string>, p: string, b: seq<string>, env: Env)
    requires p !in env.mtime
    requires Accepted(UsablePath(p, env.abspath))
    requires ExtractTextFromFile(UsablePath(p, env.abspath), env.disk).Failure?
    ensures KeyOf(a + [p] + b, env.abspath, env.mtime) == KeyOf(a + b, env.abspath, env.mtime)
    ensures BuildTexts(a + [p] + b, env).Failure?
  {
    KeyIgnoresMissing(a, p, b, env.abspath, env.mtime);
    var paths := a + [p] + b;
    var u := UsablePath(p, env.abspath);
    assert p in paths;
    PreparedMembership(paths, env.abspath, (u, Basename(u)));
    FailingFileFailsBuild(paths, env, (u, Basename(u)));
  }

  /** A prepared file whose extraction raises makes the build raise. */
  lemma FailingFileFailsBuild(paths: seq<string>, env: Env, entry: (string, string))
    requires entry in Prepared(Normalised(paths, env.abspath))
    requires ExtractTextFromFile(entry.0, env.disk).Failure?
    ensures BuildTexts(paths, env).Failure?
  {
    var prepared := Prepared(Normalised(paths, env.abspath));
    var i :| 0 <= i < |prepared| && prepared[i] == entry;
    assert ExtractForRag(prepared[i], env.disk).Failure?;
  }

  /**
   * For instance, `stem.txt` listed in a plain directory where it does not exist: `open`
   * raises for it, so the build raises, while the key ignores it.
   */
  lemma MissingTxtExample(dir: string, stem: string, a: seq<string>, b: seq<string>, env: Env)
    requires PlainDir(dir) && forall p :: env.abspath(p) == dir + "/" + p
    requires PlainName(stem) && stem != [] && '.' !in stem
    requires stem + ".txt" !in env.mtime && env.disk.txt(dir + "/" + (stem + ".txt")).TxtRaises?
    ensures KeyOf(a + [stem + ".txt"] + b, env.abspath, env.mtime) == KeyOf(a + b, env.abspath, env.mtime)
    ensures BuildTexts(a + [stem + ".txt"] + b, env).Failure?
  {
    UnreadableTxtPrepared(dir, stem, env);
    MissingFileFailsBuild(a, stem + ".txt", b, env);
  }

  /** `stem.txt` in a plain directory is accepted, and its extraction raises when its read does. */
  lemma UnreadableTxtPrepared(dir: string, stem: string, env: Env)
    requires PlainDir(dir) && forall p :: env.abspath(p) == dir + "/" + p
    requires PlainName(stem) && stem != [] && '.' !in stem
    requires env.disk.txt(dir + "/" + (stem + ".txt")).TxtRaises?
    ensures UsablePath(stem + ".txt", env.abspath) == dir + "/" + (stem + ".txt")
    ensures Accepted(dir + "/" + (stem + ".txt"))
    ensures ExtractTextFromFile(dir + "/" + (stem + ".txt"), env.disk).Failure?
  {
    var u := dir + "/" + (stem + ".txt");
    assert UsablePath(stem + ".txt", env.abspath) == u && Accepted(u) by {
      ExampleAccepted(dir, env.abspath, stem, ".txt");
      assert env.abspath(stem + ".txt") == u;
    }
    assert ExtractTextFromFile(u, env.disk).Failure? by {
      assert u == (dir + "/" + stem) + ".txt";
      TxtNamedRaises(dir + "/" + stem, env.disk);
    }
  }
}
