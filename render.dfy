/**
 * The `/render` endpoint up to the point where the document goes to the
 * LaTeX compiler: the request is decoded into equations, and the document
 * for them is assembled.
 */
module Render {
  import opened Wrappers
  import opened PyStr
  import opened Decoder
  import opened Assembler

  /** The request body: the raw equations, the page-break flag and the title. */
  datatype RenderRequest = RenderRequest(equationsRaw: string, pageBreakBetween: bool, title: string)

  /** The title used when the request gives none. */
  const DefaultTitle: string := "Ecuaciones"

  /** A request that gives only `equations_raw`, with the other fields at their defaults. */
  function RequestWithDefaults(equationsRaw: string): (req: RenderRequest)
    ensures req.equationsRaw == equationsRaw && !req.pageBreakBetween && req.title == DefaultTitle
  {
    RenderRequest(equationsRaw, false, DefaultTitle)
  }

  /**
   * `render_pdf` up to the compilation: the 400 error of the decoder, or
   * the LaTeX document built from the decoded equations with the request's
   * title and page-break flag.
   */
  method RenderTex(req: RenderRequest) returns (r: Result<string, HttpError>)
    ensures r.Failure? <==> Decode(req.equationsRaw).Failure?
    ensures r.Failure? ==> r.error == Decode(req.equationsRaw).error && r.error.status == 400
    ensures r.Success? ==>
      r.value == LatexSource(req.title, Decode(req.equationsRaw).value, req.pageBreakBetween)
  {
    var decoded := Decode(req.equationsRaw);
    if decoded.Failure? {
      return Failure(decoded.error);
    }
    var tex := BuildLatexSource(req.title, decoded.value, req.pageBreakBetween);
    return Success(tex);
  }

  /**
   * A request that decodes to `n` equations gives a document with `n`
   * headings and blocks, the first heading right after the title block,
   * and `n` page breaks at the ends of blocks when the flag is set.
   */
  lemma RenderedDocument(req: RenderRequest)
    requires Decode(req.equationsRaw).Success?
    ensures var eqs := Decode(req.equationsRaw).value;
      var tex := LatexSource(req.title, eqs, req.pageBreakBetween);
      var parts := BodyParts(eqs, req.pageBreakBetween);
      && StartsWith(tex, LatexPreamble)
      && EndsWith(tex, LatexEnd)
      && StartsWith(tex[|LatexPreamble| + |LatexBegin(req.title)|..], Heading(1))
      && |parts| == 2 * |eqs|
      && CountEndingWith(parts, PageBreak) == (if req.pageBreakBetween then |eqs| else 0)
  {
    DocumentShape(req.title, Decode(req.equationsRaw).value, req.pageBreakBetween);
  }
}
