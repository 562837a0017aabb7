/** The text extractor of backend/core/utils.py: dispatch on the lower-cased
    extension of a path, the PDF page-concatenation loop, and the rule that any
    failure while reading degrades to the empty string.

    What the PDF library and the UTF-8 decoder would produce for a given file
    is not modelled; it reaches the model as a value (`PdfSource`,
    `TextSource`) describing the outcome of opening that file. */
module Extract {
  import opened Text
  import opened PosixPath

  const PDF_EXTENSION: string := ".pdf"
  const TEXT_EXTENSIONS: seq<string> := [".txt", ".md", ".py", ".js", ".html", ".css", ".json"]

  /** Which reader a path is handed to. */
  datatype Extractor = PdfReader | TextReader | NoReader

  /** What reading one PDF page yields: its text, or an exception. */
  datatype Page = PageText(text: string) | PageFailed(reason: string)

  /** What opening a file as a PDF yields: its pages, or an exception. */
  datatype PdfSource = PdfPages(pages: seq<Page>) | PdfUnreadable(reason: string)

  /** What reading a file as UTF-8 text (undecodable bytes dropped) yields. */
  datatype TextSource = Decoded(text: string) | ReadFailed(reason: string)

  /** `extract_text_from_file`'s branch on `splitext(path)[1].lower()`. */
  function ChooseExtractor(path: string): (r: Extractor)
    ensures r != NoReader ==> HasExtension(path)
  {
    var ext := Lower(Ext(path));
    if ext == PDF_EXTENSION then PdfReader
    else if ext in TEXT_EXTENSIONS then TextReader
    else NoReader
  }

  /** The last `|t|` characters of `path`, lower-cased, are `t`. */
  predicate EndsWithIgnoringCase(path: string, t: string) {
    |t| <= |path| && Lower(path[|path| - |t|..]) == t
  }

  /** An extension token: a dot followed by dot-free, slash-free text. */
  predicate IsExtensionToken(t: string) {
    |t| > 0 && t[0] == '.' && '.' !in t[1..] && '/' !in t
  }

  /** The lower-cased extension of `path` is `t` exactly when `path` has an
      extension at all and ends with `t` up to case. */
  lemma LowerExtIs(path: string, t: string)
    requires IsExtensionToken(t)
    ensures Lower(Ext(path)) == t <==> HasExtension(path) && EndsWithIgnoringCase(path, t)
  {
    var e := Ext(path);
    ExtSuffix(path);
    if Lower(e) == t {
      assert e != "";
    }
    if HasExtension(path) && EndsWithIgnoringCase(path, t) {
      EndingIsExt(path, t);
    }
  }

  /** A path with an extension that ends with token `t` up to case has an
      extension equal to `t` up to case. */
  lemma EndingIsExt(path: string, t: string)
    requires IsExtensionToken(t)
    requires HasExtension(path) && EndsWithIgnoringCase(path, t)
    ensures Lower(Ext(path)) == t
  {
    var e := Ext(path);
    ExtSuffix(path);
    var s := path[|path| - |t|..];
    assert s[0] == '.' by {
      assert Lower(s)[0] == LowerChar(s[0]);
    }
    assert '.' !in s[1..] by {
      forall m | 1 <= m < |s| ensures s[m] != '.' {
        assert Lower(s)[m] == LowerChar(s[m]);
        assert t[1..][m - 1] == t[m];
      }
    }
    DotSuffixUnique(path, e, s);
  }

  /** Exactly the extension `.pdf`, in any case, selects the PDF reader; a
      name made only of dots before `.pdf` (such as `.pdf` itself) has no
      extension and does not. */
  lemma PdfChosenExactly(path: string)
    ensures ChooseExtractor(path) == PdfReader
        <==> HasExtension(path) && EndsWithIgnoringCase(path, PDF_EXTENSION)
  {
    LowerExtIs(path, PDF_EXTENSION);
  }

  lemma TextExtensionsAreTokens()
    ensures forall t :: t in TEXT_EXTENSIONS ==> IsExtensionToken(t)
  {
    assert IsExtensionToken(".txt") && IsExtensionToken(".md") && IsExtensionToken(".py");
    assert IsExtensionToken(".js") && IsExtensionToken(".html");
    assert IsExtensionToken(".css") && IsExtensionToken(".json");
  }

  /** `path` ends, up to case, with one of the listed text extensions. */
  predicate EndsWithTextExtension(path: string) {
    exists t :: t in TEXT_EXTENSIONS && EndsWithIgnoringCase(path, t)
  }

  lemma PdfIsNotText()
    ensures PDF_EXTENSION !in TEXT_EXTENSIONS
  {
    forall u | u in TEXT_EXTENSIONS ensures u != PDF_EXTENSION {
      assert |u| != 4 || u[1] != 'p';
    }
  }

  lemma TextChosenOnlyForListed(path: string)
    requires ChooseExtractor(path) == TextReader
    ensures HasExtension(path) && EndsWithTextExtension(path)
  {
    var ext := Lower(Ext(path));
    TextExtensionsAreTokens();
    LowerExtIs(path, ext);
  }

  lemma ListedChoosesText(path: string)
    requires HasExtension(path) && EndsWithTextExtension(path)
    ensures ChooseExtractor(path) == TextReader
  {
    var t :| t in TEXT_EXTENSIONS && EndsWithIgnoringCase(path, t);
    TextExtensionsAreTokens();
    LowerExtIs(path, t);
    PdfIsNotText();
  }

  /** Exactly the seven listed extensions, in any case, select the text reader. */
  lemma TextChosenExactly(path: string)
    ensures ChooseExtractor(path) == TextReader <==> HasExtension(path) && EndsWithTextExtension(path)
  {
    if ChooseExtractor(path) == TextReader {
      TextChosenOnlyForListed(path);
    }
    if HasExtension(path) && EndsWithTextExtension(path) {
      ListedChoosesText(path);
    }
  }

  lemma LowerIdempotent(s: string)
    ensures Lower(Lower(s)) == Lower(s)
  {
  }

  /** Dispatch ignores case: `X.PDF` and `x.pdf` go to the same reader. */
  lemma ChooseExtractorIgnoresCase(path: string)
    ensures ChooseExtractor(Lower(path)) == ChooseExtractor(path)
  {
    ExtOfLower(path);
    LowerIdempotent(Ext(path));
  }

  /** `_extract_from_pdf`'s output for pages that all yield text: each page's
      text followed by a newline, in page order. */
  function JoinPages(texts: seq<string>): string {
    if texts == [] then "" else JoinPages(texts[..|texts| - 1]) + texts[|texts| - 1] + "\n"
  }

  function TotalLength(texts: seq<string>): nat {
    if texts == [] then 0 else TotalLength(texts[..|texts| - 1]) + |texts[|texts| - 1]|
  }

  /** One newline is added per page and nothing else is added. */
  lemma {:induction false} JoinPagesLength(texts: seq<string>)
    ensures |JoinPages(texts)| == TotalLength(texts) + |texts|
  {
    if texts != [] {
      JoinPagesLength(texts[..|texts| - 1]);
    }
  }

  /** Page `i`'s text, then a newline, follows the output for the earlier pages. */
  lemma {:induction false} JoinPagesPage(texts: seq<string>, i: nat)
    requires i < |texts|
    ensures var before := JoinPages(texts[..i]);
            var all := JoinPages(texts);
            |before| + |texts[i]| + 1 <= |all|
            && all[..|before| + |texts[i]| + 1] == before + texts[i] + "\n"
    decreases |texts|
  {
    var n := |texts|;
    var init := texts[..n - 1];
    if i == n - 1 {
      assert texts[..i] == init;
    } else {
      JoinPagesPage(init, i);
      assert init[..i] == texts[..i];
      assert init[i] == texts[i];
      var before := JoinPages(texts[..i]);
      var k := |before| + |texts[i]| + 1;
      var all := JoinPages(texts);
      assert all == JoinPages(init) + texts[n - 1] + "\n";
      assert all[..k] == JoinPages(init)[..k];
    }
  }

  /** A document with no pages gives the empty string, and any page gives a
      newline-terminated result. */
  lemma JoinPagesEnds(texts: seq<string>)
    ensures JoinPages(texts) == "" <==> texts == []
    ensures texts != [] ==> JoinPages(texts)[|JoinPages(texts)| - 1] == '\n'
  {
  }

  predicate AllPagesRead(pages: seq<Page>) {
    forall i :: 0 <= i < |pages| ==> pages[i].PageText?
  }

  function PageTexts(pages: seq<Page>): (r: seq<string>)
    requires AllPagesRead(pages)
    ensures |r| == |pages|
    ensures forall i :: 0 <= i < |pages| ==> r[i] == pages[i].text
  {
    seq(|pages|, i requires 0 <= i < |pages| => pages[i].text)
  }

  /** What `_extract_from_pdf` returns: the joined pages, or "" when opening
      the document or reading any page raised. */
  function PdfText(pdf: PdfSource): string {
    match pdf
    case PdfUnreadable(_) => ""
    case PdfPages(pages) => if AllPagesRead(pages) then JoinPages(PageTexts(pages)) else ""
  }

  /** `_extract_from_pdf`: the page loop, with the exception handler. */
  method ExtractFromPdf(pdf: PdfSource) returns (text: string)
    ensures text == PdfText(pdf)
  {
    if pdf.PdfUnreadable? {
      return "";
    }
    var pages := pdf.pages;
    text := "";
    var i := 0;
    while i < |pages|
      invariant 0 <= i <= |pages|
      invariant AllPagesRead(pages[..i])
      invariant text == JoinPages(PageTexts(pages[..i]))
    {
      match pages[i]
      case PageFailed(_) =>
        assert !AllPagesRead(pages);
        return "";
      case PageText(t) =>
        assert PageTexts(pages[..i + 1])[..i] == PageTexts(pages[..i]);
        text := text + t + "\n";
        i := i + 1;
    }
    assert pages[..i] == pages;
  }

  /** `_extract_from_text`: the decoded contents, or "" when reading raised. */
  function ExtractFromText(source: TextSource): string {
    match source
    case Decoded(t) => t
    case ReadFailed(_) => ""
  }

  /** What `extract_text_from_file` returns for a path whose file would read
      as `pdf` through the PDF library and as `text` through the decoder. */
  function ExtractedText(path: string, pdf: PdfSource, text: TextSource): string {
    match ChooseExtractor(path)
    case PdfReader => PdfText(pdf)
    case TextReader => ExtractFromText(text)
    case NoReader => ""
  }

  /** `extract_text_from_file`: never raises; dispatches to one reader. */
  method ExtractTextFromFile(path: string, pdf: PdfSource, text: TextSource) returns (r: string)
    ensures r == ExtractedText(path, pdf, text)
  {
    match ChooseExtractor(path)
    case PdfReader =>
      r := ExtractFromPdf(pdf);
    case TextReader =>
      r := ExtractFromText(text);
    case NoReader =>
      r := "";
  }

  /** An unsupported extension yields "" whatever the file holds: the file is
      never read. */
  lemma UnsupportedIgnoresFile(path: string, pdf1: PdfSource, text1: TextSource,
                               pdf2: PdfSource, text2: TextSource)
    requires ChooseExtractor(path) == NoReader
    ensures ExtractedText(path, pdf1, text1) == "" == ExtractedText(path, pdf2, text2)
  {
  }

  /** Failures never escape: an unreadable file of any kind yields "". */
  lemma FailuresDegradeToEmpty(path: string, r1: string, r2: string)
    ensures ExtractedText(path, PdfUnreadable(r1), ReadFailed(r2)) == ""
  {
  }

  /** A readable PDF yields each page's text plus a newline, in page order;
      one failing page discards the whole document. */
  lemma PdfTextOfPages(pages: seq<Page>, i: nat)
    requires i < |pages|
    ensures AllPagesRead(pages) ==>
              var all := PdfText(PdfPages(pages));
              var before := JoinPages(PageTexts(pages[..i]));
              |before| + |pages[i].text| + 1 <= |all|
              && all[..|before| + |pages[i].text| + 1] == before + pages[i].text + "\n"
    ensures pages[i].PageFailed? ==> PdfText(PdfPages(pages)) == ""
  {
    if AllPagesRead(pages) {
      var texts := PageTexts(pages);
      assert PageTexts(pages[..i]) == texts[..i];
      JoinPagesPage(texts, i);
    }
  }
}
