/** `save_latex_report` without its file write, and the `convert_report`
    dispatch in front of it. The document is the beamer template with the
    escaped title and the transpiled slides filled in. */
module Document {
  import opened Text
  import opened LatexEscape
  import opened SlideSpec
  import Beamer

  /** `lines[0].replace('#', '').strip()`, escaped: every `#` of the first
      line is dropped, wherever it stands, before trimming. `split` never
      returns an empty list, so the first line always exists. */
  function DocumentTitle(content: string): string {
    EscapeLatex(Strip(RemoveChar(Split(content, '\n')[0], '#')))
  }

  /** The template's lines before the title. */
  function Preamble(): seq<string> {
    [
    "",
    @"\documentclass{beamer}",
    @"\usetheme{Madrid}",
    @"\usepackage[utf8]{inputenc}",
    @"\usepackage{graphicx}",
    @"\usepackage{booktabs}",
    @"\usepackage{hyperref}"
    ]
  }

  /** The template's lines between the title and the slides. */
  function FrontMatter(): seq<string> {
    [
    @"\author{Report Generator AI}",
    @"\date{\today}",
    "",
    @"\begin{document}",
    "",
    @"\frame{\titlepage}",
    ""
    ]
  }

  /** The template's lines before the slides; the title fills line 8. */
  function TemplateHead(title: string): seq<string> {
    Preamble() + [@"\title{" + title + "}"] + FrontMatter()
  }

  /** The template's lines after the slides; the raw string ends in a line break. */
  function TemplateFoot(): seq<string> {
    ["", @"\end{document}", ""]
  }

  /** `latex_template % (title, body)`: the template's lines joined by line
      breaks, the body standing alone on the line between them. */
  function LatexDocument(title: string, body: string): string {
    Join(TemplateHead(title) + [body] + TemplateFoot(), "\n")
  }

  /** The escaped title holds no `#` and no line break, so it fills the
      `\title{…}` line alone and nothing else. */
  lemma TitleFacts(content: string)
    ensures '#' !in DocumentTitle(content) && '\n' !in DocumentTitle(content)
  {
    var first := Split(content, '\n')[0];
    var cut := RemoveChar(first, '#');
    RemoveCharFree(first, '#', '\n');
    StripFree(cut, '#');
    StripFree(cut, '\n');
    EscapedTitleFree(Strip(cut));
  }

  lemma EscapedTitleFree(t: string)
    requires '#' !in t && '\n' !in t
    ensures '#' !in EscapeLatex(t) && '\n' !in EscapeLatex(t)
  {
    EscapeLatexKeeps(t, '#');
    EscapeLatexKeeps(t, '\n');
  }

  /** Only the first line of the report decides the title. */
  lemma TitleFromFirstLine(first: string, rest: string)
    requires '\n' !in first
    ensures DocumentTitle(first + "\n" + rest) == DocumentTitle(first)
  {
    SplitAround(first, rest, '\n');
    SplitFree(first, '\n');
  }

  /** A report whose first line carries no reserved character and no
      surrounding space, once its `#` marks are dropped, is titled by that line. */
  lemma TitleOfPlainHeading(first: string)
    requires '\n' !in first
    requires forall k :: 0 <= k < |RemoveChar(first, '#')| ==> !IsReserved(RemoveChar(first, '#')[k])
    requires Strip(RemoveChar(first, '#')) == RemoveChar(first, '#')
    ensures DocumentTitle(first) == RemoveChar(first, '#')
  {
    SplitFree(first, '\n');
    EscapeLatexPlain(RemoveChar(first, '#'));
  }

  /** Read back line by line, the document is the template's head with the
      title on its eighth line, then the slides' own lines, then the foot. */
  lemma DocumentLines(title: string, body: string)
    requires '\n' !in title
    ensures Split(LatexDocument(title, body), '\n')
            == TemplateHead(title) + Split(body, '\n') + TemplateFoot()
    ensures Split(LatexDocument(title, body), '\n')[7] == @"\title{" + title + "}"
  {
    HeadLinesFree(title);
    SplitJoinAround(TemplateHead(title), body, TemplateFoot(), '\n');
  }

  lemma HeadLinesFree(title: string)
    requires '\n' !in title
    ensures forall k :: 0 <= k < |TemplateHead(title)| ==> '\n' !in TemplateHead(title)[k]
  {
    PreambleFree();
    FrontMatterFree();
    TitleLineFree(title);
  }

  lemma PreambleFree()
    ensures forall k :: 0 <= k < |Preamble()| ==> '\n' !in Preamble()[k]
  {
  }

  lemma FrontMatterFree()
    ensures forall k :: 0 <= k < |FrontMatter()| ==> '\n' !in FrontMatter()[k]
  {
  }

  lemma TitleLineFree(title: string)
    requires '\n' !in title
    ensures '\n' !in @"\title{" + title + "}"
  {
    InConcat(@"\title{" + title, "}", '\n');
    InConcat(@"\title{", title, '\n');
  }

  /** `save_latex_report(content, …)` up to the file write: the document text. */
  method SaveLatexReport(content: string) returns (doc: string)
    ensures doc == LatexDocument(DocumentTitle(content), BeamerSlides(content))
  {
    var title := DocumentTitle(content);
    var latexContent := Beamer.MdToBeamerSlides(content);
    doc := LatexDocument(title, latexContent);
  }

  /** The exporters `convert_report` chooses from. */
  datatype ReportFormat = Markdown | Pdf | Excel | Latex

  /** The key each exporter is registered under. */
  function FormatName(f: ReportFormat): string {
    match f
    case Markdown => "md"
    case Pdf => "pdf"
    case Excel => "excel"
    case Latex => "latex"
  }

  /** `format_handlers.get(output_format, format_handlers["md"])`. */
  function SelectFormat(outputFormat: string): (f: ReportFormat)
    ensures f != Markdown ==> FormatName(f) == outputFormat
    ensures f == Markdown <==> outputFormat != "pdf" && outputFormat != "excel" && outputFormat != "latex"
  {
    if outputFormat == "pdf" then Pdf
    else if outputFormat == "excel" then Excel
    else if outputFormat == "latex" then Latex
    else Markdown
  }

  /** Every exporter is found under its own key. */
  lemma SelectFormatName(f: ReportFormat)
    ensures SelectFormat(FormatName(f)) == f
  {
    match f
    case Markdown => assert FormatName(f) == "md";
    case Pdf =>
    case Excel =>
    case Latex =>
  }

  /** What an exporter produces: the text it writes, where the model has it. */
  datatype Export =
    | MarkdownText(text: string)
    | PdfFile
    | ExcelFile
    | BeamerText(text: string)

  /** `convert_report(content, output_format, …)`: the Markdown exporter writes
      the report as it is, the LaTeX exporter writes the beamer document. */
  method ConvertReport(content: string, outputFormat: string) returns (e: Export)
    ensures match SelectFormat(outputFormat)
            case Markdown => e == MarkdownText(content)
            case Pdf => e == PdfFile
            case Excel => e == ExcelFile
            case Latex => e == BeamerText(LatexDocument(DocumentTitle(content), BeamerSlides(content)))
  {
    var handler := SelectFormat(outputFormat);
    match handler {
      case Markdown => e := MarkdownText(content);
      case Pdf => e := PdfFile;
      case Excel => e := ExcelFile;
      case Latex =>
        var doc := SaveLatexReport(content);
        e := BeamerText(doc);
    }
  }
}
