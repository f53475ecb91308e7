/** The export endpoint: a note's Markdown becomes a downloadable HTML
    document or PDF. The Markdown renderer, the syntax highlighter and the
    headless-browser printer are parameters; what is modelled is how a
    request is checked, dispatched and named, and how failures fall back. */
module Export {

  import opened Common
  import opened Strings

  type Byte = bv8

  datatype ExportRequest = ExportRequest(format: Option<string>, content: Option<string>, filename: Option<string>)

  datatype Body = Html(text: string) | Pdf(bytes: seq<Byte>)

  datatype ExportResponse =
    | Error(status: nat, message: string)
    | Download(contentType: string, disposition: string, body: Body)

  /** `filename.replace(/\.md$/, '')`: one trailing `.md` is dropped. */
  function StripMd(name: string): (r: string)
    ensures EndsWith(name, ".md") ==> r + ".md" == name
    ensures !EndsWith(name, ".md") ==> r == name
  {
    if EndsWith(name, ".md") then name[..|name| - 3] else name
  }

  /** Only one `.md` goes: the name of `notes.md.md` keeps the inner one. */
  lemma StripMdOnce(base: string)
    ensures StripMd(base + ".md") == base
  {
    assert (base + ".md")[|base + ".md"| - 3..] == ".md";
    assert (base + ".md")[..|base|] == base;
  }

  /** The download name: the note's name without `.md`, then the extension. */
  function DownloadName(filename: string, ext: string): (r: string)
    ensures EndsWith(filename, ".md") ==> r == filename[..|filename| - 3] + ext
    ensures !EndsWith(filename, ".md") ==> r == filename + ext
  {
    StripMd(filename) + ext
  }

  function Disposition(filename: string, ext: string): string
  {
    "attachment; filename=\"" + DownloadName(filename, ext) + "\""
  }

  /** The document up to the title text. */
  const DocStart: string :=
    "<!DOCTYPE html>\n<html lang=\"en\">\n<head>\n    <meta charset=\"UTF-8\">\n" +
    "    <meta name=\"viewport\" content=\"width=device-width, initial-scale=1.0\">\n    <title>"

  /** From the end of the title to the start of the body; the style sheet text
      itself is not part of this model, so the stylesheet link and an empty
      `<style>` element stand for it. */
  const TitleClose: string := "</title>"

  const HeadTail: string :=
    "\n    <link rel=\"stylesheet\" href=\"https://cdnjs.cloudflare.com/ajax/libs/highlight.js/11.8.0/styles/github.min.css\">\n" +
    "    <style>\n    </style>\n</head>\n<body>\n    "

  const DocEnd: string := "\n</body>\n</html>"

  /** The standalone page: the filename as its title and the rendered
      fragment as its body. The PDF is printed from a page of the same shape. */
  function HtmlDocument(title: string, fragment: string): string
  {
    DocStart + title + TitleClose + HeadTail + fragment + DocEnd
  }

  /** The title a page carries: what follows `DocStart` up to the first
      `</title>`. */
  function TitleOf(doc: string): Option<string>
  {
    TitleAfter(DocStart, doc)
  }

  /** The text after `start` up to the first `</title>`. */
  function TitleAfter(start: string, doc: string): Option<string>
  {
    if !IsPrefix(start, doc) then None
    else
      match FindFrom(doc, TitleClose, |start|)
      case None => None
      case Some(i) => Some(doc[|start|..i])
  }

  /** The first `</title>` after a `<`-free text is the one that follows it. */
  lemma FirstTitleClose(pre: string, title: string, rest: string)
    requires '<' !in title
    ensures FindFrom(pre + title + TitleClose + rest, TitleClose, |pre|) == Some(|pre| + |title|)
  {
    var doc := pre + title + TitleClose + rest;
    var n := |pre|;
    assert OccursAt(doc, TitleClose, n + |title|) by {
      assert doc[n + |title|..n + |title| + |TitleClose|] == TitleClose;
    }
    forall k | n <= k < n + |title|
      ensures !OccursAt(doc, TitleClose, k)
    {
      assert doc[k] == title[k - n];
      assert TitleClose[0] == '<';
    }
  }

  /** A `<`-free title placed after any head text is read back. */
  lemma TitleAfterRoundTrip(start: string, title: string, rest: string)
    requires '<' !in title
    ensures TitleAfter(start, start + title + TitleClose + rest) == Some(title)
  {
    var doc := start + title + TitleClose + rest;
    FirstTitleClose(start, title, rest);
    assert doc == start + title + (TitleClose + rest);
    assert doc[..|start|] == start;
    assert doc[|start|..|start| + |title|] == title;
  }

  /** The filename is recovered from the page's title (a name that contains
      `<` could end the title early). */
  lemma TitleRoundTrip(title: string, fragment: string)
    requires '<' !in title
    ensures TitleOf(HtmlDocument(title, fragment)) == Some(title)
  {
    var rest := HeadTail + fragment + DocEnd;
    assert HtmlDocument(title, fragment) == DocStart + title + TitleClose + rest;
    TitleAfterRoundTrip(DocStart, title, rest);
  }

  /** The page's body between the fixed head and the closing tags. */
  function BodyOf(doc: string, title: string): Option<string>
  {
    var start := |DocStart + title + TitleClose + HeadTail|;
    if start + |DocEnd| <= |doc| then Some(doc[start..|doc| - |DocEnd|]) else None
  }

  /** The rendered fragment is embedded verbatim. */
  lemma BodyRoundTrip(title: string, fragment: string)
    ensures BodyOf(HtmlDocument(title, fragment), title) == Some(fragment)
  {
    var doc := HtmlDocument(title, fragment);
    var head := DocStart + title + TitleClose + HeadTail;
    assert doc == head + fragment + DocEnd;
    assert doc[|head|..|doc| - |DocEnd|] == fragment;
  }

  /** `generateHTML`: the title interpolates the filename; building the
      download name of a missing filename throws (`undefined.replace`),
      which the handler reports as a failed export. */
  function GenerateHtml(content: string, filename: Option<string>, render: string -> string): (r: ExportResponse)
    ensures filename.None? ==> r == Error(500, "Export failed")
    ensures filename.Some? ==> r.Download? && r.contentType == "text/html"
    ensures filename.Some? ==> r.disposition == Disposition(filename.value, ".html")
    ensures filename.Some? ==> r.body == Html(HtmlDocument(filename.value, render(content)))
  {
    if filename.None? then Error(500, "Export failed")
    else Download("text/html", Disposition(filename.value, ".html"), Html(HtmlDocument(filename.value, render(content))))
  }

  /** What the title shows for a filename: JavaScript writes `undefined` for
      a missing one. */
  function TitleText(filename: Option<string>): string
  {
    if filename.None? then "undefined" else filename.value
  }

  /** `generatePDF`: `printPage` is the whole headless-browser chain on the page
      (`None` when any step of it throws). Every failure, including the
      download name of a missing filename, falls back to `generateHTML`. */
  function GeneratePdf(content: string, filename: Option<string>, render: string -> string,
                       printPage: string -> Option<seq<Byte>>): (r: ExportResponse)
    ensures var printed := printPage(HtmlDocument(TitleText(filename), render(content)));
      && (printed.Some? && filename.Some? ==>
            r == Download("application/pdf", Disposition(filename.value, ".pdf"), Pdf(printed.value)))
      && (printed.None? || filename.None? ==> r == GenerateHtml(content, filename, render))
  {
    match printPage(HtmlDocument(TitleText(filename), render(content)))
    case Some(bytes) =>
      if filename.None? then GenerateHtml(content, filename, render)
      else Download("application/pdf", Disposition(filename.value, ".pdf"), Pdf(bytes))
    case None => GenerateHtml(content, filename, render)
  }

  /** `!x` on a string field: missing or empty. */
  predicate Blank(x: Option<string>)
  {
    x.None? || x.value == ""
  }

  /** `POST /api/export`. */
  function HandleExport(req: ExportRequest, render: string -> string, printPage: string -> Option<seq<Byte>>): (r: ExportResponse)
    ensures r == Error(400, "Format and content are required") <==> Blank(req.format) || Blank(req.content)
    ensures !Blank(req.format) && !Blank(req.content) && req.format.value !in {"html", "pdf"} ==>
      r == Error(400, "Unsupported format")
    ensures r.Error? ==> r.status == 400 || r == Error(500, "Export failed")
    ensures r.Error? && r.status == 500 ==> req.filename.None?
    ensures r.Download? ==> req.filename.Some? && r.contentType in {"text/html", "application/pdf"}
    ensures !Blank(req.content) && req.format == Some("html") ==>
      r == GenerateHtml(req.content.value, req.filename, render)
    ensures !Blank(req.content) && req.format == Some("pdf") ==>
      r == GeneratePdf(req.content.value, req.filename, render, printPage)
  {
    if Blank(req.format) || Blank(req.content) then Error(400, "Format and content are required")
    else if req.format.value == "html" then GenerateHtml(req.content.value, req.filename, render)
    else if req.format.value == "pdf" then GeneratePdf(req.content.value, req.filename, render, printPage)
    else Error(400, "Unsupported format")
  }

  /** A PDF request whose printing fails gets exactly the HTML export of the
      same note. */
  lemma PdfFallsBackToHtml(content: string, filename: Option<string>, render: string -> string,
                           printPage: string -> Option<seq<Byte>>)
    requires content != ""
    requires printPage(HtmlDocument(TitleText(filename), render(content))).None?
    ensures HandleExport(ExportRequest(Some("pdf"), Some(content), filename), render, printPage)
      == HandleExport(ExportRequest(Some("html"), Some(content), filename), render, printPage)
  {
  }

  /** A successful HTML export names the download after the note, titles
      the page with the filename and embeds the rendered Markdown. */
  lemma HtmlExportShape(content: string, filename: string, render: string -> string,
                        printPage: string -> Option<seq<Byte>>)
    requires content != "" && '<' !in filename
    ensures var r := HandleExport(ExportRequest(Some("html"), Some(content), Some(filename)), render, printPage);
      && r.Download? && r.contentType == "text/html"
      && r.disposition == "attachment; filename=\"" + StripMd(filename) + ".html\""
      && r.body.Html?
      && TitleOf(r.body.text) == Some(filename)
      && BodyOf(r.body.text, filename) == Some(render(content))
  {
    var req := ExportRequest(Some("html"), Some(content), Some(filename));
    assert !Blank(req.format) && !Blank(req.content);
    assert HandleExport(req, render, printPage) == GenerateHtml(content, Some(filename), render);
    var pre := "attachment; filename=\"";
    assert Disposition(filename, ".html") == pre + (StripMd(filename) + ".html") + "\"";
    ConcatAssoc(pre, StripMd(filename), ".html", "\"");
    TitleRoundTrip(filename, render(content));
    BodyRoundTrip(filename, render(content));
  }

  /** A PDF export whose printing succeeds downloads the printed bytes,
      named after the note with `.pdf`. */
  lemma PdfExportShape(content: string, filename: string, render: string -> string,
                       printPage: string -> Option<seq<Byte>>)
    requires content != ""
    requires printPage(HtmlDocument(filename, render(content))).Some?
    ensures var r := HandleExport(ExportRequest(Some("pdf"), Some(content), Some(filename)), render, printPage);
      && r.Download? && r.contentType == "application/pdf"
      && r.disposition == "attachment; filename=\"" + StripMd(filename) + ".pdf\""
      && r.body == Pdf(printPage(HtmlDocument(filename, render(content))).value)
  {
    var pre := "attachment; filename=\"";
    assert Disposition(filename, ".pdf") == pre + (StripMd(filename) + ".pdf") + "\"";
    ConcatAssoc(pre, StripMd(filename), ".pdf", "\"");
  }

  lemma ConcatAssoc(a: string, x: string, b: string, c: string)
    ensures a + (x + b) + c == a + x + (b + c)
  {
  }

  /** The syntax highlighter as the renderer calls it. `registered` says
      whether a language is known; `highlight` returns `None` when it throws. */
  function HighlightCode(code: string, lang: Option<string>, registered: string -> bool,
                         highlight: (string, string) -> Option<string>): (r: string)
    ensures Blank(lang) ==> r == code
    ensures !Blank(lang) && registered(lang.value) && highlight(code, lang.value).Some? ==>
      r == highlight(code, lang.value).value
    ensures !Blank(lang) && !registered(lang.value) && highlight(code, "plaintext").Some? ==>
      r == highlight(code, "plaintext").value
    ensures !Blank(lang) && highlight(code, if registered(lang.value) then lang.value else "plaintext").None? ==>
      r == code
  {
    if Blank(lang) then code
    else
      var language := if registered(lang.value) then lang.value else "plaintext";
      match highlight(code, language)
      case Some(v) => v
      case None => code
  }
}
