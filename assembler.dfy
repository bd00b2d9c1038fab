/**
 * The LaTeX document the renderer compiles: a fixed preamble, the title
 * block, one heading and one equation block per equation, and the closing
 * line. Each equation block is an indented template, with the equation
 * written twice (once to typeset, once inside a `verbatim` environment),
 * passed through `textwrap.dedent`, and optionally followed by a page break.
 */
module Assembler {
  import opened PyStr
  import opened TextWrap

  // ---------------------------------------------------------------------
  // the fixed parts of the document
  // ---------------------------------------------------------------------

  /** `LATEX_PREAMBLE`: document class, packages and paragraph settings. */
  const LatexPreamble: string :=
    "\n"
    + "\\documentclass[11pt]{article}\n"
    + "\\usepackage[utf8]{inputenc}\n"
    + "\\usepackage[T1]{fontenc}\n"
    + "\\usepackage[a4paper,margin=2.2cm]{geometry}\n"
    + "\\usepackage{amsmath, amssymb, amsfonts}\n"
    + "\\usepackage{bm}\n"
    + "\\usepackage{mathtools}\n"
    + "\\usepackage{lmodern}\n"
    + "\\usepackage{microtype}\n"
    + "\\usepackage{relsize}\n"
    + "\\usepackage{upgreek}\n"
    + "\\usepackage{physics}\n"
    + "\\usepackage{xcolor}\n"
    + "\\usepackage{hyperref}\n"
    + "\\hypersetup{colorlinks=true,linkcolor=black,urlcolor=blue}\n"
    + "\\setlength{\\parskip}{0.6em}\n"
    + "\\setlength{\\parindent}{0pt}\n"

  /** The one `%`-format field of `LATEX_BEGIN`. */
  const TitleField: string := "%(title)s"

  /** `LATEX_BEGIN` up to its title field ... */
  const BeginHead: string :=
    "\n"
    + "\\begin{document}\n"
    + "\\begin{center}\n"
    + "{\\LARGE \\textbf{"

  /** ... and after it. */
  const BeginTail: string :=
    "}}\n"
    + "\\end{center}\n"
    + "\\vspace{1em}\n"

  /** `LATEX_BEGIN`, the `%`-format template of the title block. */
  const LatexBeginTemplate: string := BeginHead + TitleField + BeginTail

  /**
   * The title field is the template's only '%', so `%`-formatting with the
   * one key "title" replaces it and changes nothing else.
   */
  lemma BeginTemplateOneField()
    ensures '%' !in BeginHead && '%' !in BeginTail
    ensures LatexBeginTemplate[|BeginHead|..|BeginHead| + |TitleField|] == TitleField
  {
  }

  /** `LATEX_END` */
  const LatexEnd: string := "\n\\end{document}\n"

  /**
   * The three raw strings each start and end with a newline, so each sits
   * on lines of its own in the document; the title block opens the
   * `document` environment and `LATEX_END` closes it.
   */
  lemma FixedTexts()
    ensures LatexPreamble[0] == '\n' && LatexPreamble[|LatexPreamble| - 1] == '\n'
    ensures StartsWith(LatexBeginTemplate, "\n\\begin{document}\n")
    ensures LatexBeginTemplate[|LatexBeginTemplate| - 1] == '\n'
    ensures StartsWith(LatexEnd, "\n\\end{document}") && LatexEnd[|LatexEnd| - 1] == '\n'
  {
  }

  /**
   * `LATEX_BEGIN % {"title": title}`: the template has no '%' besides its
   * single `%(title)s` field, so the title is put in its place as it is.
   */
  function LatexBegin(title: string): (r: string)
    ensures |r| == |BeginHead| + |title| + |BeginTail|
    ensures StartsWith(r, BeginHead) && EndsWith(r, BeginTail)
    ensures r[|BeginHead|..|r| - |BeginTail|] == title
  {
    var r := BeginHead + title + BeginTail;
    assert r[..|BeginHead|] == BeginHead;
    assert r[|r| - |BeginTail|..] == BeginTail;
    assert r[|BeginHead|..|r| - |BeginTail|] == title;
    r
  }

  // ---------------------------------------------------------------------
  // make_equation_block
  // ---------------------------------------------------------------------

  /** The indentation of the block template's source lines. */
  const Indentation: string := "    "

  const BlockStartLine: string := "    %%%%%% Equation Block Start %%%%%%"
  const NoIndentLine: string := "    \\noindent"
  const SmallSkipLine: string := "    \\vspace{0.4em}"
  const LiteralLabelLine: string := "    \\textbf{LaTeX literal:}"
  const BeginVerbatimLine: string := "    \\\\begin{verbatim}"
  const EndVerbatimLine: string := "    \\\\end{verbatim}"
  const BigSkipLine: string := "    \\vspace{0.8em}"
  const BlockEndLine: string := Indentation + BlockEndMark

  /** What every dedented block ends with, before any page break. */
  const BlockEndMark: string := "%%%%%% Equation Block End %%%%%%"

  /** The text `make_equation_block` appends when a page break is asked for. */
  const PageBreak: string := "\n\\clearpage\n"

  /**
   * The pieces of the raw template between its newlines, with the equation
   * substituted twice: indented after `\noindent`, and at the start of a
   * line inside `verbatim`. The equation may itself hold newlines.
   */
  function TemplateSegments(eq: string): (ss: seq<string>)
    ensures |ss| == 13
  {
    [ "", BlockStartLine, NoIndentLine, Indentation + eq, "",
      SmallSkipLine, LiteralLabelLine, BeginVerbatimLine, eq,
      EndVerbatimLine, BigSkipLine, BlockEndLine, Indentation ]
  }

  /** The template text before `dedent`: its lines are those of the pieces, in order. */
  function BlockTemplate(eq: string): string {
    Unlines(TemplateSegments(eq))
  }

  /**
   * `make_equation_block(eq, add_pagebreak)`: the block ends with the
   * end-of-block marker and a newline, then the page break if one is asked for.
   */
  function EquationBlock(eq: string, addPagebreak: bool): (r: string)
    ensures EndsWith(r, BlockEndMark + "\n" + (if addPagebreak then PageBreak else ""))
  {
    var d := Dedent(BlockTemplate(eq));
    DedentedBlockEnding(eq);
    EndsWithAppend(d, BlockEndMark + "\n", if addPagebreak then PageBreak else "");
    d + (if addPagebreak then PageBreak else "")
  }

  /**
   * `make_equation_block`: dedents the filled-in template, then appends the
   * page break when asked to. The block ends with the end-of-block marker
   * and a newline, and ends with a page break exactly when one was asked for.
   */
  method MakeEquationBlock(eq: string, addPagebreak: bool) returns (block: string)
    ensures block == EquationBlock(eq, addPagebreak)
    ensures EndsWith(block, PageBreak) <==> addPagebreak
    ensures EndsWith(block, BlockEndMark + "\n" + (if addPagebreak then PageBreak else ""))
  {
    var rendered := eq;
    block := Dedent(BlockTemplate(rendered));
    if addPagebreak {
      block := block + PageBreak;
    }
    EquationBlockEnding(eq, addPagebreak);
    assert BlockEndMark + "\n" + "" == BlockEndMark + "\n";
  }

  // ---------------------------------------------------------------------
  // build_latex_source
  // ---------------------------------------------------------------------

  const HeadingOpen: string := "\\textbf{Ecuación "
  const HeadingClose: string := "}\n"

  /**
   * The heading written before the `i`-th equation (counting from 1): the
   * decimal digits of `i` between `HeadingOpen` and `HeadingClose`.
   */
  function Heading(i: nat): (h: string)
    ensures StartsWith(h, HeadingOpen) && EndsWith(h, HeadingClose)
    ensures |HeadingOpen| + |HeadingClose| <= |h|
    ensures h[|HeadingOpen|..|h| - |HeadingClose|] == NatToString(i)
  {
    var h := HeadingOpen + NatToString(i) + HeadingClose;
    assert h[..|HeadingOpen|] == HeadingOpen;
    assert h[|h| - |HeadingClose|..] == HeadingClose;
    assert h[|HeadingOpen|..|h| - |HeadingClose|] == NatToString(i);
    h
  }

  /**
   * The `body` list of `build_latex_source` for the equations `eqs`:
   * a heading and a block for each, in order.
   */
  function BodyParts(eqs: seq<string>, pageBreak: bool): (parts: seq<string>)
    ensures |parts| == 2 * |eqs|
  {
    if eqs == [] then []
    else
      var n := |eqs|;
      BodyParts(eqs[..n - 1], pageBreak) + [Heading(n), EquationBlock(eqs[n - 1], pageBreak)]
  }

  /** One more equation adds its heading and its block to the body. */
  lemma BodyPartsNext(eqs: seq<string>, i: nat, pageBreak: bool)
    requires i < |eqs|
    ensures BodyParts(eqs[..i + 1], pageBreak)
      == BodyParts(eqs[..i], pageBreak) + [Heading(i + 1), EquationBlock(eqs[i], pageBreak)]
  {
    assert eqs[..i + 1][..i] == eqs[..i];
  }

  /**
   * The document `build_latex_source(title, eqs, page_break_between)`
   * returns: it ends with `LATEX_END`, and with no equations the body is
   * empty, so the document is the preamble, the title block and `LATEX_END`.
   */
  function LatexSource(title: string, eqs: seq<string>, pageBreak: bool): (tex: string)
    ensures EndsWith(tex, LatexEnd)
    ensures eqs == [] ==> tex == LatexPreamble + LatexBegin(title) + LatexEnd
  {
    var body := Unlines(BodyParts(eqs, pageBreak));
    FourPieces(LatexPreamble, LatexBegin(title), body, LatexEnd);
    assert eqs == [] ==> body == "";
    LatexPreamble + LatexBegin(title) + body + LatexEnd
  }

  /** `build_latex_source`: collects the parts in a loop, then joins them. */
  method BuildLatexSource(title: string, equations: seq<string>, pageBreakBetween: bool)
    returns (tex: string)
    ensures tex == LatexSource(title, equations, pageBreakBetween)
  {
    var body: seq<string> := [];
    var i := 0;
    while i < |equations|
      invariant 0 <= i <= |equations|
      invariant body == BodyParts(equations[..i], pageBreakBetween)
    {
      ghost var before := body;
      var eq := equations[i];
      body := body + [Heading(i + 1)];
      var block := MakeEquationBlock(eq, pageBreakBetween);
      body := body + [block];
      AppendTwo(before, Heading(i + 1), block);
      BodyPartsNext(equations, i, pageBreakBetween);
      i := i + 1;
    }
    assert equations[..i] == equations;
    assert body == BodyParts(equations, pageBreakBetween);
    var bodyStr := Unlines(body);
    tex := LatexPreamble + LatexBegin(title) + bodyStr + LatexEnd;
  }

  lemma AppendTwo<T>(a: seq<T>, x: T, y: T)
    ensures a + [x] + [y] == a + [x, y]
  {
  }

  // ---------------------------------------------------------------------
  // properties of the equation block
  // ---------------------------------------------------------------------

  /**
   * Every dedented block ends with the end-of-block marker and a newline,
   * whatever the equation and whatever margin `dedent` finds.
   */
  lemma DedentedBlockEnding(eq: string)
    ensures EndsWith(Dedent(BlockTemplate(eq)), BlockEndMark + "\n")
  {
    assert BlockEndMark[0] == '%';
    DedentSegmentsEnd(TemplateSegments(eq), Indentation, BlockEndMark, Indentation);
  }

  lemma EndsWithAppend(d: string, m: string, p: string)
    requires EndsWith(d, m)
    ensures EndsWith(d + p, m + p) && EndsWith(d + p, p)
  {
    var k := |d| - |m|;
    assert (d + p)[k..] == d[k..] + p;
    assert (d + p)[|d + p| - |p|..] == p;
  }

  /** Two suffixes that differ at their next-to-last character cannot both end `d`. */
  lemma EndsWithMismatch(d: string, m: string, p: string)
    requires EndsWith(d, m) && |m| >= 2 && |p| >= 2 && m[|m| - 2] != p[|p| - 2]
    ensures !EndsWith(d, p)
  {
    assert d[|d| - 2] == m[|m| - 2];
    assert |p| > |d| || d[|d| - |p|..][|p| - 2] != p[|p| - 2];
  }

  /**
   * `make_equation_block` ends its block with the end-of-block marker, a
   * newline and, exactly when asked to, the page break.
   */
  lemma EquationBlockEnding(eq: string, addPagebreak: bool)
    ensures var block := EquationBlock(eq, addPagebreak);
      && (addPagebreak ==> EndsWith(block, BlockEndMark + "\n" + PageBreak))
      && (!addPagebreak ==> EndsWith(block, BlockEndMark + "\n"))
      && (EndsWith(block, PageBreak) <==> addPagebreak)
  {
    var d := Dedent(BlockTemplate(eq));
    DedentedBlockEnding(eq);
    if addPagebreak {
      EndsWithAppend(d, BlockEndMark + "\n", PageBreak);
    } else {
      assert (BlockEndMark + "\n")[|BlockEndMark + "\n"| - 2] == '%';
      assert PageBreak[|PageBreak| - 2] == 'e';
      EndsWithMismatch(d, BlockEndMark + "\n", PageBreak);
    }
  }

  /**
   * `eq` starts with neither a space nor a newline, and its first line holds
   * more than spaces and tabs.
   */
  predicate FlushFirstLine(eq: string) {
    eq != "" && eq[0] != ' ' && eq[0] != '\n' && !AllIn(Lines(eq)[0], IndentChars)
  }

  /** No line of `eq` is made of spaces and tabs only, unless it is empty. */
  predicate NoBlankLines(eq: string) {
    forall k :: 0 <= k < |Lines(eq)| ==> Lines(eq)[k] == "" || !AllIn(Lines(eq)[k], IndentChars)
  }

  /** Such an equation has nothing for the blanking step to empty. */
  lemma NoBlankLinesKept(eq: string)
    requires NoBlankLines(eq)
    ensures BlankText(eq) == eq
  {
    assert BlankLines(Lines(eq)) == Lines(eq);
    UnlinesLines(eq);
  }

  /** The template for `eq` with its last line, the indentation, emptied. */
  function BlankedSegments(eq: string): (ts: seq<string>)
    ensures |ts| == 13
    ensures ts == TemplateSegments(eq)[..12] + [""]
  {
    [ "", BlockStartLine, NoIndentLine, Indentation + eq, "",
      SmallSkipLine, LiteralLabelLine, BeginVerbatimLine, eq,
      EndVerbatimLine, BigSkipLine, BlockEndLine, "" ]
  }

  /** The template's fixed pieces are single lines, all of them kept but the last. */
  lemma FixedSegments(eq: string, bt: string)
    ensures var ss := TemplateSegments(eq);
      var ts := BlankedSegments(bt);
      forall i :: 0 <= i < 13 && i !in {3, 8} ==> '\n' !in ss[i] && ts[i] == BlankLine(ss[i])
  {
    FixedHead(eq, bt);
    FixedMiddle(eq, bt);
    FixedTail(eq, bt);
  }

  lemma FixedHead(eq: string, bt: string)
    ensures var ss := TemplateSegments(eq);
      var ts := BlankedSegments(bt);
      forall i :: 0 <= i < 3 ==> '\n' !in ss[i] && ts[i] == BlankLine(ss[i])
  {
    assert BlockStartLine[4] !in IndentChars;
    assert NoIndentLine[4] !in IndentChars;
  }

  lemma FixedMiddle(eq: string, bt: string)
    ensures var ss := TemplateSegments(eq);
      var ts := BlankedSegments(bt);
      forall i :: 4 <= i < 8 ==> '\n' !in ss[i] && ts[i] == BlankLine(ss[i])
  {
    assert SmallSkipLine[4] !in IndentChars;
    assert LiteralLabelLine[4] !in IndentChars;
    assert BeginVerbatimLine[4] !in IndentChars;
  }

  lemma FixedTail(eq: string, bt: string)
    ensures var ss := TemplateSegments(eq);
      var ts := BlankedSegments(bt);
      forall i :: 9 <= i < 13 ==> '\n' !in ss[i] && ts[i] == BlankLine(ss[i])
  {
    assert EndVerbatimLine[4] !in IndentChars;
    assert BigSkipLine[4] !in IndentChars;
    assert BlockEndLine[4] !in IndentChars;
  }

  /**
   * Blanking the lines of the template for `eq` gives those of the template
   * for `bt` with its last line emptied, when blanking the lines of `eq`,
   * with and without the indentation, gives those of `bt`.
   */
  lemma TemplateBlankedTo(eq: string, bt: string)
    requires BlankLines(Lines(eq)) == Lines(bt)
    requires BlankLines(Lines(Indentation + eq)) == Lines(Indentation + bt)
    ensures BlankLines(FlatLines(TemplateSegments(eq))) == FlatLines(BlankedSegments(bt))
  {
    FixedSegments(eq, bt);
    BlankFlatSingles(TemplateSegments(eq), BlankedSegments(bt), {3, 8});
  }

  /**
   * Blanking the lines of the template empties its last line and the
   * blank lines of the two copies of the equation, and nothing else.
   */
  lemma TemplateBlanked(eq: string)
    requires FlushFirstLine(eq)
    ensures BlankLines(FlatLines(TemplateSegments(eq))) == FlatLines(BlankedSegments(BlankText(eq)))
  {
    LinesOfBlankText(eq);
    IndentedBlankLines(Indentation, eq);
    TemplateBlankedTo(eq, BlankText(eq));
  }

  /**
   * The indented copy of `eq` starts a line with a space, and its verbatim
   * copy starts a line that is either not indented or indented from a tab:
   * the two lines share no margin, so `dedent` removes none.
   */
  lemma TemplateMarginEmpty(eq: string)
    requires FlushFirstLine(eq)
    ensures DedentMargin(BlockTemplate(eq)) == ""
    ensures Dedent(BlockTemplate(eq)) == Unlines(BlankLines(FlatLines(TemplateSegments(eq))))
  {
    FirstLineIndents(eq);
    DedentSegmentsMixed(TemplateSegments(eq), 3, 8);
  }

  /** The first lines of the two copies of `eq`: the indented one starts with a space, the verbatim one does not. */
  lemma FirstLineIndents(eq: string)
    requires FlushFirstLine(eq)
    ensures var a, b := Lines(Indentation + eq)[0], Lines(eq)[0];
      !AllIn(a, IndentChars) && !AllIn(b, IndentChars) &&
      Indent(a) != "" && Indent(a)[0] == ' ' && (Indent(b) == "" || Indent(b)[0] != ' ')
  {
    var l := Lines(eq)[0];
    LinesHead(eq);
    LinesPrefix(Indentation, eq);
    AllInAppend(Indentation, l, IndentChars);
    IndentFirst(Indentation + l);
    IndentFirst(l);
  }

  /** Under the same condition, the dedented template is the blanked template. */
  lemma DedentedTemplate(eq: string)
    requires FlushFirstLine(eq)
    ensures Dedent(BlockTemplate(eq)) == Unlines(BlankedSegments(BlankText(eq)))
  {
    TemplateMarginEmpty(eq);
    TemplateBlanked(eq);
    UnlinesFlat(BlankedSegments(BlankText(eq)));
  }

  /**
   * For an equation that starts with neither a space nor a newline and whose
   * first line is not blank, `dedent` removes no margin: the block is the template for the equation
   * with its lines of spaces and tabs only emptied, less the template's last
   * four spaces.
   */
  lemma EquationBlockDedent(eq: string)
    requires FlushFirstLine(eq)
    ensures DedentMargin(BlockTemplate(eq)) == ""
    ensures EquationBlock(eq, false) + Indentation == BlockTemplate(BlankText(eq))
  {
    TemplateMarginEmpty(eq);
    DedentedTemplate(eq);
    var bt := BlankText(eq);
    var ss, ts := TemplateSegments(bt), BlankedSegments(bt);
    assert EquationBlock(eq, false) == Unlines(ts);
    assert ss[12] == Indentation;
    EmptiedLastLine(ss, ts);
  }

  /**
   * If moreover no line of the equation is spaces and tabs only, both of its
   * copies come out exactly as given.
   */
  lemma EquationBlockVerbatim(eq: string)
    requires FlushFirstLine(eq) && NoBlankLines(eq)
    ensures EquationBlock(eq, false) + Indentation == BlockTemplate(eq)
  {
    EquationBlockDedent(eq);
    NoBlankLinesKept(eq);
  }

  /**
   * A tab then a character other than a space, tab or newline (the kind of
   * equation the decoder keeps with its tab) appears in the block unchanged.
   */
  lemma TabEquationVerbatim(c: char)
    requires c !in IndentChars && c != '\n'
    ensures EquationBlock(['\t', c], false) + Indentation == BlockTemplate(['\t', c])
  {
    var eq := ['\t', c];
    assert '\n' !in eq;
    OneLine(eq);
    assert eq[1] !in IndentChars;
    EquationBlockVerbatim(eq);
  }

  // ---------------------------------------------------------------------
  // properties of the document
  // ---------------------------------------------------------------------

  /**
   * The body alternates headings and blocks: the `k`-th equation (from 0)
   * gets heading number `k + 1` followed by its own block, in input order.
   */
  lemma BodyPartsShape(eqs: seq<string>, pageBreak: bool)
    ensures var parts := BodyParts(eqs, pageBreak);
      forall k :: 0 <= k < |eqs| ==>
        parts[2 * k] == Heading(k + 1) && parts[2 * k + 1] == EquationBlock(eqs[k], pageBreak)
  {
    forall k | 0 <= k < |eqs|
      ensures BodyParts(eqs, pageBreak)[2 * k] == Heading(k + 1)
      ensures BodyParts(eqs, pageBreak)[2 * k + 1] == EquationBlock(eqs[k], pageBreak)
    {
      BodyPartsAt(eqs, pageBreak, k);
    }
  }

  /** The two body parts of the `k`-th equation. */
  lemma {:induction false} BodyPartsAt(eqs: seq<string>, pageBreak: bool, k: nat)
    requires k < |eqs|
    ensures BodyParts(eqs, pageBreak)[2 * k] == Heading(k + 1)
    ensures BodyParts(eqs, pageBreak)[2 * k + 1] == EquationBlock(eqs[k], pageBreak)
    decreases |eqs|
  {
    var n := |eqs|;
    var init := eqs[..n - 1];
    var pre := BodyParts(init, pageBreak);
    var h, b := Heading(n), EquationBlock(eqs[n - 1], pageBreak);
    assert BodyParts(eqs, pageBreak) == pre + [h, b];
    IndexPair(pre, h, b, 2 * k);
    IndexPair(pre, h, b, 2 * k + 1);
    if k < n - 1 {
      BodyPartsAt(init, pageBreak, k);
      assert init[k] == eqs[k];
    }
  }

  lemma IndexPair<T>(a: seq<T>, x: T, y: T, i: nat)
    requires i < |a| + 2
    ensures (a + [x, y])[i] == if i < |a| then a[i] else if i == |a| then x else y
  {
  }

  /** The number of `parts` that end with `suffix`. */
  function CountEndingWith(parts: seq<string>, suffix: string): (n: nat)
    ensures n <= |parts|
  {
    if parts == [] then 0
    else CountEndingWith(parts[..|parts| - 1], suffix) + (if EndsWith(parts[|parts| - 1], suffix) then 1 else 0)
  }

  lemma CountEndingWithPair(init: seq<string>, a: string, b: string, suffix: string)
    ensures CountEndingWith(init + [a, b], suffix)
      == CountEndingWith(init, suffix) + (if EndsWith(a, suffix) then 1 else 0) + (if EndsWith(b, suffix) then 1 else 0)
  {
    var parts := init + [a, b];
    assert parts[..|parts| - 1] == init + [a];
    assert (init + [a])[..|init|] == init;
  }

  /** No heading ends with a page break. */
  lemma HeadingNoPageBreak(i: nat)
    ensures !EndsWith(Heading(i), PageBreak)
  {
    var h := Heading(i);
    assert h[|h| - 2] == '}';
    assert PageBreak[|PageBreak| - 2] == 'e';
  }

  /**
   * With `page_break_between` set, each equation's block, the last one
   * included, ends with a page break; without it, no part of the body does.
   */
  lemma {:induction false} PageBreakCount(eqs: seq<string>, pageBreak: bool)
    ensures CountEndingWith(BodyParts(eqs, pageBreak), PageBreak) == if pageBreak then |eqs| else 0
  {
    if eqs != [] {
      var n := |eqs|;
      PageBreakCount(eqs[..n - 1], pageBreak);
      HeadingNoPageBreak(n);
      EquationBlockEnding(eqs[n - 1], pageBreak);
      CountEndingWithPair(BodyParts(eqs[..n - 1], pageBreak), Heading(n), EquationBlock(eqs[n - 1], pageBreak), PageBreak);
    }
  }

  /** The heading of the `i`-th equation carries the decimal digits of `i`, with no leading zero. */
  lemma HeadingNumber(i: nat)
    ensures var h := Heading(i);
      && StartsWith(h, HeadingOpen) && EndsWith(h, HeadingClose)
      && var digits := h[|HeadingOpen|..|h| - |HeadingClose|];
      && digits != "" && AllIn(digits, Digits) && DecimalValue(digits) == i
      && (digits[0] == '0' ==> i == 0)
  {
    var h := Heading(i);
    var d := NatToString(i);
    assert h[..|HeadingOpen|] == HeadingOpen;
    assert h[|h| - |HeadingClose|..] == HeadingClose;
    assert h[|HeadingOpen|..|h| - |HeadingClose|] == d;
    NatToStringRoundTrip(i);
  }

  /** The slices of a text made of four consecutive pieces. */
  lemma FourPieces(a: string, b: string, c: string, d: string)
    ensures var t := a + b + c + d;
      && StartsWith(t, a)
      && |a| + |b| <= |t|
      && t[|a|..|a| + |b|] == b
      && EndsWith(t, d)
      && (c == "" ==> t == a + b + d)
  {
    var t := a + b + c + d;
    assert t[..|a|] == a;
    assert t[|a|..|a| + |b|] == b;
    assert t[|t| - |d|..] == d;
  }

  lemma StartsWithAfter(a: string, b: string, c: string, h: string)
    requires StartsWith(b, h)
    ensures |a| <= |a + b + c| && StartsWith((a + b + c)[|a|..], h)
  {
    assert (a + b + c)[|a|..] == b + c;
    assert (b + c)[..|h|] == b[..|h|];
  }

  /** A text starts with the first of the texts joined by newlines. */
  lemma UnlinesStartsWithFirst(parts: seq<string>)
    requires parts != []
    ensures StartsWith(Unlines(parts), parts[0])
  {
    if |parts| > 1 {
      assert Unlines(parts) == parts[0] + "\n" + Unlines(parts[1..]);
    }
  }

  /** The document is the preamble, then the title block holding the title as given. */
  lemma LatexSourceFrame(title: string, eqs: seq<string>, pageBreak: bool)
    ensures var tex := LatexSource(title, eqs, pageBreak);
      var bodyStart := |LatexPreamble| + |LatexBegin(title)|;
      && StartsWith(tex, LatexPreamble)
      && bodyStart <= |tex|
      && tex[|LatexPreamble|..bodyStart] == LatexBegin(title)
  {
    FourPieces(LatexPreamble, LatexBegin(title), Unlines(BodyParts(eqs, pageBreak)), LatexEnd);
  }

  /** When there are equations, the body right after the title block starts with the first heading. */
  lemma LatexSourceFirstHeading(title: string, eqs: seq<string>, pageBreak: bool)
    requires eqs != []
    ensures var tex := LatexSource(title, eqs, pageBreak);
      var bodyStart := |LatexPreamble| + |LatexBegin(title)|;
      bodyStart <= |tex| && StartsWith(tex[bodyStart..], Heading(1))
  {
    BodyFirstHeading(eqs, pageBreak);
    StartsWithAfter(LatexPreamble + LatexBegin(title), Unlines(BodyParts(eqs, pageBreak)), LatexEnd, Heading(1));
  }

  lemma BodyFirstHeading(eqs: seq<string>, pageBreak: bool)
    requires eqs != []
    ensures StartsWith(Unlines(BodyParts(eqs, pageBreak)), Heading(1))
  {
    var parts := BodyParts(eqs, pageBreak);
    BodyPartsShape(eqs, pageBreak);
    assert parts[2 * 0] == Heading(0 + 1);
    UnlinesStartsWithFirst(parts);
  }

  /**
   * A document with equations: the preamble first, `LATEX_END` last, the
   * first heading right after the title block, a heading and a block per
   * equation, and one page break per block exactly when the flag is set.
   */
  lemma DocumentShape(title: string, eqs: seq<string>, pageBreak: bool)
    requires eqs != []
    ensures var tex := LatexSource(title, eqs, pageBreak);
      var parts := BodyParts(eqs, pageBreak);
      && StartsWith(tex, LatexPreamble)
      && EndsWith(tex, LatexEnd)
      && StartsWith(tex[|LatexPreamble| + |LatexBegin(title)|..], Heading(1))
      && |parts| == 2 * |eqs|
      && CountEndingWith(parts, PageBreak) == (if pageBreak then |eqs| else 0)
  {
    LatexSourceFrame(title, eqs, pageBreak);
    LatexSourceFirstHeading(title, eqs, pageBreak);
    PageBreakCount(eqs, pageBreak);
  }
}
