/**
 * `extract_text_from_file`: dispatch on the path's case-sensitive suffix to one of three
 * readers. The readers (PyPDF2, python-docx, a UTF-8 file read) are not modelled; what
 * each makes of a path is an input, `Disk`.
 */
module Extractor {
  import opened Wrappers
  import opened StrOps

  /** What PyPDF2's `PdfReader` makes of a file. */
  datatype PdfDoc =
    | Encrypted                          // `reader.is_encrypted`
    | ReadError                          // a `PdfReadError` while reading or extracting
    | OtherError                         // any other exception, a missing file for one
    | Pages(pages: seq<Option<string>>)  // `page.extract_text()` for each page, in order

  /** What python-docx's `Document` makes of a file: its paragraph texts, or an exception. */
  datatype DocxDoc =
    | Paragraphs(texts: seq<string>)
    | DocxRaises                         // any exception, a missing or malformed file for one

  /** What `open(path, "r", encoding="utf-8").read()` gives: the contents, or an exception. */
  datatype TxtDoc =
    | Contents(text: string)
    | TxtRaises                          // any exception: a missing file, a directory, no permission, bytes that are not UTF-8

  /** The three readers, each as a function of the path it is given. */
  datatype Disk = Disk(pdf: string -> PdfDoc, docx: string -> DocxDoc, txt: string -> TxtDoc)

  /** An exception that escapes `extract_text_from_file`, with the path being read. */
  datatype Failure = PdfRaised(path: string) | DocxRaised(path: string) | TxtRaised(path: string)

  const Newline: string := "\n"

  /** `page.extract_text() or ""` for each page. */
  function PageTexts(pages: seq<Option<string>>): (texts: seq<string>)
    ensures |texts| == |pages|
    ensures forall i :: 0 <= i < |pages| ==> texts[i] == pages[i].GetOr("")
  {
    seq(|pages|, i requires 0 <= i < |pages| => pages[i].GetOr(""))
  }

  /** The PDF branch: encryption and `PdfReadError` give `""`; other exceptions escape. */
  function PdfText(path: string, doc: PdfDoc): Result<string, Failure>
  {
    match doc
    case Encrypted => Success("")
    case ReadError => Success("")
    case OtherError => Failure(PdfRaised(path))
    case Pages(pages) => Success(Join(PageTexts(pages), Newline))
  }

  function DocxText(path: string, doc: DocxDoc): Result<string, Failure>
  {
    match doc
    case Paragraphs(texts) => Success(Join(texts, Newline))
    case DocxRaises => Failure(DocxRaised(path))
  }

  function TxtText(path: string, doc: TxtDoc): Result<string, Failure>
  {
    match doc
    case Contents(text) => Success(text)
    case TxtRaises => Failure(TxtRaised(path))
  }

  /** `extract_text_from_file(path)`. */
  function ExtractTextFromFile(path: string, disk: Disk): (r: Result<string, Failure>)
    // an unsupported suffix (case-sensitive) gives "" and raises nothing
    ensures !EndsWith(path, ".pdf") && !EndsWith(path, ".docx") && !EndsWith(path, ".txt")
            ==> r == Success("")
    // a PDF raises only for exceptions other than PdfReadError
    ensures EndsWith(path, ".pdf") ==> (r.Failure? <==> disk.pdf(path).OtherError?)
    ensures EndsWith(path, ".pdf") && (disk.pdf(path).Encrypted? || disk.pdf(path).ReadError?)
            ==> r == Success("")
    ensures EndsWith(path, ".docx") ==> (r.Failure? <==> disk.docx(path).DocxRaises?)
    ensures EndsWith(path, ".txt") ==> (r.Failure? <==> disk.txt(path).TxtRaises?)
    ensures EndsWith(path, ".txt") && disk.txt(path).Contents? ==> r == Success(disk.txt(path).text)
    ensures r.Failure? ==> r.error.path == path
  {
    SuffixesExclusive(path);
    if EndsWith(path, ".pdf") then PdfText(path, disk.pdf(path))
    else if EndsWith(path, ".docx") then DocxText(path, disk.docx(path))
    else if EndsWith(path, ".txt") then TxtText(path, disk.txt(path))
    else Success("")
  }

  /** No path has two of the three suffixes, so the order of the checks decides nothing. */
  lemma SuffixesExclusive(path: string)
    ensures !(EndsWith(path, ".pdf") && EndsWith(path, ".docx"))
    ensures !(EndsWith(path, ".pdf") && EndsWith(path, ".txt"))
    ensures !(EndsWith(path, ".docx") && EndsWith(path, ".txt"))
  {
    if EndsWith(path, ".pdf") {
      assert path[|path| - 1] == 'f';
    }
    if EndsWith(path, ".docx") {
      assert path[|path| - 1] == 'x';
    }
  }

  /**
   * The text of a readable PDF is its page texts joined by newlines: with at least one page,
   * and no page text holding a newline, splitting at newlines gives back each page's text,
   * a page without text giving `""`. A PDF without pages gives `""`.
   */
  lemma PdfPagesRecoverable(path: string, disk: Disk)
    requires EndsWith(path, ".pdf") && disk.pdf(path).Pages?
    ensures ExtractTextFromFile(path, disk).Success?
    ensures disk.pdf(path).pages == [] ==> ExtractTextFromFile(path, disk).value == ""
    ensures var pages := disk.pdf(path).pages;
            pages != [] && (forall i :: 0 <= i < |pages| ==> '\n' !in pages[i].GetOr(""))
            ==> Split(ExtractTextFromFile(path, disk).value, '\n') == PageTexts(pages)
  {
    var pages := disk.pdf(path).pages;
    if pages != [] && (forall i :: 0 <= i < |pages| ==> '\n' !in pages[i].GetOr("")) {
      SplitJoin(PageTexts(pages), '\n');
    }
  }

  /** A `.txt` path whose read raises makes extraction raise. */
  lemma TxtNamedRaises(prefix: string, disk: Disk)
    requires disk.txt(prefix + ".txt").TxtRaises?
    ensures ExtractTextFromFile(prefix + ".txt", disk) == Failure(TxtRaised(prefix + ".txt"))
  {
    EndsWithAppended(prefix, ".txt");
  }

  /** Likewise for a readable word-processing document and its paragraphs. */
  lemma DocxParagraphsRecoverable(path: string, disk: Disk)
    requires EndsWith(path, ".docx") && disk.docx(path).Paragraphs?
    ensures ExtractTextFromFile(path, disk).Success?
    ensures disk.docx(path).texts == [] ==> ExtractTextFromFile(path, disk).value == ""
    ensures var texts := disk.docx(path).texts;
            texts != [] && (forall i :: 0 <= i < |texts| ==> '\n' !in texts[i])
            ==> Split(ExtractTextFromFile(path, disk).value, '\n') == texts
  {
    SuffixesExclusive(path);
    var texts := disk.docx(path).texts;
    if texts != [] && (forall i :: 0 <= i < |texts| ==> '\n' !in texts[i]) {
      SplitJoin(texts, '\n');
    }
  }
}
