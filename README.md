# Document ingestion core of the Drive-to-RAG driver

This project models the ingestion half of `content/driver.py` in Dafny. That half turns a
list of local file paths into a retrieval index (a crewai `RagTool`) and caches the index
per set of files. The model covers three parts:

- **Path normalisation** (`simple_decode_path`). If the path starts with `file:///`, every
  occurrence of `file:///` is removed. Then every `%20` becomes a space and every
  backslash becomes a slash. Python's `str.replace` is modelled exactly: a leftmost,
  non-overlapping scan (`StrOps.Replace`).
- **Text extraction** (`extract_text_from_file`). The function dispatches on the exact,
  case-sensitive suffix `.pdf`, `.docx` or `.txt`. The three readers (PyPDF2, python-docx
  and a UTF-8 text read) are abstract inputs: a `Disk` of three functions, each from a
  path to what that reader yields for it. The model keeps which reader failures are
  swallowed and which ones propagate.
- **Index building with a cache** (`build_rag_tool_from_files`). This covers:
  - the cache key of `(abspath, mtime)` pairs for the paths that exist;
  - the filter loop that keeps `.pdf` and `.txt` files after lower-casing the extension;
  - the per-file extraction, which skips blank texts;
  - the loop that adds texts to the index;
  - the cache lookup and the insert into the process-wide cache.

  The cache is a class, `RagCache.RagToolCache`, with a map field. The index is a class,
  `RagCache.RagTool`, whose state is the sequence of texts added to it.

How the files fit together:

- `wrappers.dfy` has `Option` and `Result`.
- `strings.dfy` has the Python string operations the code uses.
- `paths.dfy` has the path functions.
- `extractor.dfy` has the extractor.
- `ingestion.dfy` has the specification functions of the builder and the lemmas about them.
- `cache.dfy` has the imperative builder, the index and the cache, plus two method-level
  scenarios.

Each operation comes with a partner:

- The builder's methods (`PrepareFiles`, `BuildRagToolFromFiles`) are proved
  against specification functions (`Prepared`, `Normalised`, `MapExtract`, `AddedTexts`,
  `BuildTexts`).
- Those functions are related to independent reference definitions (`AllTexts`,
  `NonBlank`) by lemmas.

### Behaviour of the code worth knowing

- **Removing `file:///` can create a new one.** `simple_decode_path` removes every
  occurrence of `file:///` from a path that starts with it, and the pieces left can join
  into a new `file:///`. For example, `file:///fifile:///le:///x` becomes `file:///x` when
  `x` holds no `f`, `%` or backslash
  (`Paths.DecodeCanLeaveScheme`). During a build this branch never fires, because the path
  has already gone through `os.path.abspath` (line 120), which returns an absolute path
  starting with `/`. It matters only when `simple_decode_path` is called on its own.
- **Only `PdfReadError` is caught.** Any other exception raised by the PDF reader
  propagates out of `extract_text_from_file`, for example the one for a missing file. The
  model represents this as `PdfDoc.OtherError`.
- **The cache key is a tuple in input order.** The same files listed in another order
  give a different key, and so a different cache entry (`Ingestion.KeyIsOrdered`).
- **The filter lower-cases the extension, but the extractor does not.** `X.PDF` passes the
  filter at line 124, and then `extract_text_from_file` sees no `.pdf` suffix and returns
  `""`, so the file adds nothing (`Ingestion.MixedCaseIsPreparedButEmpty`).
- **A missing file is left out of the key but not out of the build.** The key skips a
  listed path that does not exist (line 111), while the loop at lines 119-132 never tests
  existence. A missing `.pdf` or `.txt` is therefore still prepared, its reader raises at
  line 70 or 84, and the whole build raises (`Ingestion.MissingFileFailsBuild`).
- **The key watches the raw path, the build reads the decoded one.** The key calls
  `getmtime` on the path as listed (line 111), while extraction opens the usable path
  after `%20` and backslash decoding (lines 120-121, 137). For `/d/a%20b.txt` the key
  follows `/d/a%20b.txt` and the build reads `/d/a b.txt`, so a change to the file that is
  read need not change the key. The model keys `mtime` by the raw path and the readers by
  the usable path, as the code does.

## Model

| member | source | states |
|---|---|---|
| Paths.SimpleDecodePath | content/driver.py:91-102 | definition (the three steps of lines 92-98), no contract of its own; see the `Paths.Decode…` rows |
| Paths.Unescape | content/driver.py:94-98 | definition (lines 95 and 98 without the scheme step), no contract of its own; used by `DecodeKeepsOtherEscapes`, `DecodeTurnsEncodedSpaceIntoSpace` and `DecodeTurnsBackslashIntoSlash` |
| Paths.DecodeFixedPoint | content/driver.py:91-102 | normalisation leaves a path unchanged exactly when it has no leading `file:///`, no `%20` and no backslash |
| Paths.DecodeKeepsOtherEscapes | content/driver.py:94-98 | in a path not starting with `file:///`, every occurrence of a percent escape other than `%20` (such as `%2F`) is copied verbatim, and the text on either side is decoded on its own (`Unescape`: `%20` to space, then backslash to slash) |
| Paths.DecodeTurnsEncodedSpaceIntoSpace | content/driver.py:94-95 | in a path not starting with `file:///`, every occurrence of `%20` becomes exactly one space, and the text on either side is decoded on its own |
| Paths.DecodeTurnsBackslashIntoSlash | content/driver.py:97-98 | in a path not starting with `file:///`, every backslash becomes exactly one slash, and the text on either side is decoded on its own |
| Paths.DecodeLeavesNoBackslashOrEncodedSpace | content/driver.py:94-98 | for every input, the normalised path contains no backslash and no `%20` |
| Paths.DecodeNoLonger | content/driver.py:91-102 | normalisation never makes a path longer |
| Paths.DecodeCanLeaveScheme | content/driver.py:92-93 | removing every `file:///` can create a new one: for example, `file:///fifile:///le:///x` normalises to `file:///x` |
| Paths.Extension | content/driver.py:122 | the extension is empty, or it starts with a dot, ends the path, and contains no further dot and no slash |
| Paths.ExtensionIsAfterLastDot | content/driver.py:122 | the extension is non-empty exactly when the last path component has a dot preceded by some character other than a dot, and then it is everything from the last dot on |
| Paths.ExtensionOfName | content/driver.py:122 | a file named `n + e`, where `e` is a dot followed by no further dot and `n` holds a character other than a dot, has extension `e` |
| Paths.Basename | content/driver.py:123 | the base name ends the path, contains no slash, and is preceded by a slash whenever it is shorter than the path |
| Paths.BasenameFollowsLastSlash | content/driver.py:123 | the base name is exactly the part of the path after its last slash |
| Paths.Lower | content/driver.py:122 | lowering keeps the length and maps each character through the ASCII lower-case mapping |
| StrOps.StripEmptyIffAllSpace | content/driver.py:138 | `strip()` yields the empty string exactly when every character is whitespace, so a text is skipped exactly when it is blank |
| Extractor.ExtractTextFromFile | content/driver.py:67-87 | dispatch on the case-sensitive suffix. An unsupported suffix gives `""`. A PDF raises exactly when its reader raises something other than `PdfReadError`, and an encrypted or unreadable PDF gives `""`. A DOCX raises exactly when `Document(path)` raises, whether the file is missing or malformed. A TXT raises exactly when opening or reading it as UTF-8 raises (a missing file, a directory, no permission, bytes that are not UTF-8), and otherwise gives its contents. Every error names the path it came from |
| Extractor.SuffixesExclusive | content/driver.py:68-83 | no path ends with two of `.pdf`, `.docx` and `.txt`, so at most one branch applies |
| Extractor.PdfPagesRecoverable | content/driver.py:69-77 | a readable PDF never raises. A PDF without pages gives `""`. When no page text holds a newline, splitting the result at newlines gives back exactly the page texts, with `""` for a page without text |
| Extractor.DocxParagraphsRecoverable | content/driver.py:79-81 | a DOCX that `Document(path)` reads never raises. A DOCX without paragraphs gives `""`. When no paragraph holds a newline, splitting the result at newlines gives back exactly the paragraph texts |
| Ingestion.KeyOf | content/driver.py:111 | the key has at most one entry per input path, and exactly one per path when every path exists |
| Ingestion.KeyOfAppend | content/driver.py:111 | the key of a concatenated path list is the concatenation of the two keys |
| Ingestion.KeyMembership | content/driver.py:111 | a pair is in the key exactly when it is `(abspath(p), mtime(p))` for some listed path `p` that exists |
| Ingestion.KeyIgnoresMissing | content/driver.py:111 | a path that does not exist does not affect the key |
| Ingestion.KeyDetectsNewMtime | content/driver.py:111 | changing the modification time of a listed, existing file changes the key |
| Ingestion.KeyIsOrdered | content/driver.py:111 | two existing files with different absolute paths give different keys in the two orders |
| Ingestion.UsablePath | content/driver.py:120-121 | definition (`simple_decode_path(os.path.abspath(raw))`), no contract of its own; see `Ingestion.PreparedMembership` |
| Ingestion.Accepted | content/driver.py:122-124 | definition (the lowered-extension test), no contract of its own; see `Ingestion.AcceptedByName`, `Ingestion.DocxNeverPrepared` and `Ingestion.MixedCaseIsPreparedButEmpty` |
| Ingestion.Normalised | content/driver.py:119-121 | definition (the usable path of each input path, in order), no contract of its own; see `Ingestion.PreparedMembership` |
| Ingestion.Select | content/driver.py:118-132 | the filter loop over usable paths keeps at most one entry per path; see `Ingestion.SelectAppend` and `Ingestion.SelectMembership` |
| Ingestion.Prepared | content/driver.py:118-132 | definition (`prepared_files`: `Select` with `Accepted`), no contract of its own; see `Ingestion.PreparedSnoc`, `Ingestion.PreparedMembership` and `RagCache.PrepareFiles` |
| Ingestion.SelectAppend | content/driver.py:118-132 | the filter loop distributes over concatenation of the path list |
| Ingestion.SelectMembership | content/driver.py:118-132 | an entry is kept exactly when it is `(u, basename(u))` for some listed usable path `u` that passes the filter |
| Ingestion.PreparedSnoc | content/driver.py:119-132 | one loop iteration appends `(usable, basename)` exactly when the lowered extension is `.pdf` or `.txt`, and otherwise appends nothing |
| Ingestion.PreparedMembership | content/driver.py:118-132 | an entry is prepared exactly when it comes from some listed raw path by abspath, normalisation and the extension filter, paired with its base name |
| Ingestion.AcceptedByName | content/driver.py:122-124 | a file named `n + e`, where `n` holds a character other than a dot, passes the filter whenever `e` lowers to `.pdf` or `.txt` |
| Ingestion.DocxNeverPrepared | content/driver.py:122-126 | a path ending in `.docx`, in any mix of upper and lower case, never passes the filter, although the extractor supports `.docx` |
| Ingestion.MixedCaseAcceptedExtractsNothing | content/driver.py:122 | a file that passes the filter without literally ending in `.pdf` or `.txt` extracts to `""`, because the extractor's suffix test at line 68 is case-sensitive |
| Ingestion.MixedCaseIsPreparedButEmpty | content/driver.py:122-141 | a file named `n + e` with `e` lowering to `.pdf` or `.txt` but not equal to either (such as `X.PDF`) passes the filter, extracts to `""`, and its task contributes no text |
| Ingestion.UpperCasePdfExample | content/driver.py:118-141 | `stem.PDF` under a plain directory is prepared under its own absolute path, yet its task contributes no text |
| Ingestion.FourFileExample | content/driver.py:118-132 | for `a.pdf`, `b.docx`, `c.txt` and `d.csv` under one plain directory, exactly the PDF and the text file are prepared, in that order, each paired with its file name |
| Ingestion.ExtractForRag | content/driver.py:134-141 | the per-file task raises exactly when extraction raises, with the same error. It yields `(text, source)` when the text is not blank and nothing when it is blank |
| Ingestion.MapAll | content/driver.py:145 | collecting the map succeeds exactly when every task succeeds, and then it holds each task's value in input order |
| Ingestion.MapAllRaisesFirst | content/driver.py:145 | when the map fails, the error raised is that of the first failing task in input order |
| Ingestion.MapExtract | content/driver.py:144-145 | the extraction map succeeds exactly when every prepared file's task succeeds, and then its results are those tasks' results in order |
| Ingestion.MapExtractRaisesFirst | content/driver.py:144-145 | when extraction fails, the error is that of the first prepared file whose extraction raises |
| Ingestion.AllTexts | content/driver.py:137 | reference definition: all extracted texts in file order, or the first error |
| Ingestion.NonBlank | content/driver.py:138-140 | reference filter: a text survives exactly when it is in the input and not blank |
| Ingestion.MapExtractIsNonBlankTexts | content/driver.py:134-155 | the map-then-add pipeline fails exactly when plain extraction fails, with the same error. On success it yields exactly the non-blank extracted texts, in file order |
| Ingestion.BuildAddsNonBlankTextsInOrder | content/driver.py:134-155 | a build's texts are the non-blank texts of the prepared files in order, or the first extraction error |
| Ingestion.AddedTextsComeFromPreparedFiles | content/driver.py:137-155 | every text added to the index is non-blank and is the extracted text of some prepared file |
| Ingestion.AddedTexts | content/driver.py:147-155 | definition (the texts of the non-`None` results, in order), no contract of its own; see `Ingestion.AddedTextsPrefix` and `Ingestion.MapExtractIsNonBlankTexts` |
| Ingestion.BuildTexts | content/driver.py:134-155 | definition (extraction map, then add loop), no contract of its own; see `Ingestion.BuildAddsNonBlankTextsInOrder`, `Ingestion.AddedTextsComeFromPreparedFiles` and `Ingestion.MissingFileFailsBuild` |
| Ingestion.FailingFileFailsBuild | content/driver.py:134-145 | a prepared file whose extraction raises makes the whole build raise |
| Ingestion.MissingFileFailsBuild | content/driver.py:111-145 | a listed path that does not exist, passes the filter and whose reader raises leaves the key as it would be without it, yet the build raises |
| Ingestion.UnreadableTxtPrepared | content/driver.py:82-84 | `stem.txt` in a plain directory is its own usable path and passes the filter, and its extraction raises when opening or reading it raises |
| Ingestion.MissingTxtExample | content/driver.py:111-145 | listing a missing `stem.txt` from a plain directory, whose read raises, leaves the key as it is without it and makes the build raise |
| Ingestion.AddedTextsPrefix | content/driver.py:147-155 | one iteration of the add loop appends the result's text when there is one, and otherwise appends nothing |
| RagCache.PrepareFiles | content/driver.py:118-132 | the loop builds exactly the prepared list of the specification, in input order |
| RagCache.RagTool.constructor | content/driver.py:116 | a new index holds no texts |
| RagCache.RagTool.Add | content/driver.py:150-154 | adding appends the text to the index and changes nothing else |
| RagCache.RagToolCache.constructor | content/driver.py:105 | the cache starts empty |
| RagCache.RagToolCache.BuildRagToolFromFiles | content/driver.py:109-158 | on a hit, the cached index is returned and the cache is unchanged. On a miss, a fresh index holding exactly the build's texts is stored under the key and returned. If an extraction raises, that error is returned and the cache is unchanged. Distinct keys always map to distinct indexes |
| RagCache.BuildTwice | content/driver.py:112-115 | two calls in a row with unchanged files return the same result: the same index object, or the same error. After a miss, the first call's index holds the build's texts |
| RagCache.RebuildAfterModification | content/driver.py:111-115 | starting from any cache that does not already hold the new key (an empty one, for example), after a listed file's modification time changes the next call builds a fresh index, distinct from the earlier one, holding the texts of the new build |

## Left out

- `download_drive_files` (`content/driver.py:13-65`) and the Streamlit front end are not
  modelled. They talk to Google Drive and the UI.
- The lock and the thread pool are not modelled. The two critical sections and the
  extraction map run sequentially, so races between concurrent builds are not covered.
  For example, two builds can miss the same key and the later insert wins.
- `concurrent` is never imported in `content/driver.py`, so line 144 raises `NameError`
  whenever the cache misses. The model gives the evidently intended behaviour of line 145:
  an in-order map whose first raised exception propagates.
- `print` logging is not modelled.
- The `isinstance` branch at lines 127-131 is not modelled. `simple_decode_path` always
  returns a `str`, so that branch cannot run.
- `RagTool.add` is modelled only as recording the text. Its `data_type="text"` argument is
  a constant, and the source name is commented out at line 153, so it never reaches the
  index. The embedding and retrieval inside crewai are not part of this model.
- `os.path.abspath` is a function parameter. `os.path.exists` and `os.path.getmtime` are
  one map from path to modification time: a path is in the map exactly when it exists.
- The model does not tie that map to the readers. Nothing forces the reader of a path
  missing from the map to raise; `Ingestion.MissingFileFailsBuild` takes that as a premise.
- Modification times are integers, not floats.
- Errors raised by `os.path.getmtime` or `os.path.abspath` are not modelled, including a
  file that disappears between the two calls on line 111.
- The file system is fixed for the duration of a build. Each reader is a function of the
  path, so a file that changes between key computation and reading is not covered.
- The behaviour of PyPDF2 and python-docx is abstract. A reader yields encrypted,
  unreadable, an error, or its pages or paragraphs. How it parses is not modelled.
- Bytes paths are not modelled: every path is a `string`.
- Paths.Lower: lowers ASCII letters only. That is exact for the comparison with `.pdf` and
  `.txt`, but `str.lower` on other Unicode letters is not modelled.
- Paths.Extension: follows POSIX `os.path.splitext` only: a slash separates components,
  and leading dots of the base name are skipped. The Windows variant is not modelled.
- Paths.Basename: follows POSIX `os.path.basename` only.
