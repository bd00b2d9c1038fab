# latex_equations in Dafny

A model of the text pipeline of the `latex_equations` service (`main.py`). The
`POST /render` endpoint takes a raw string of LaTeX equations separated by
`**`, a page-break flag and a title, and turns them into a LaTeX document,
which it then compiles to PDF. The model covers everything up to the
compiler:

- the request decoder at the start of `render_pdf`: blank input is rejected,
  the input is split on `**`, pieces are filtered and stripped, and an empty
  result is rejected (module `Decoder`);
- the assembler: `make_equation_block`, `build_latex_source` and the constants
  `LATEX_PREAMBLE`, `LATEX_BEGIN` and `LATEX_END` (module `Assembler`);
- `render_pdf` up to the compile step, as `Render.RenderTex`.

Module by module:

- `PyStr` states the Python string operations the code relies on, with
  CPython's semantics:
  - `str.split` on a separator, which is left to right and non-overlapping,
    so `"a***b"` splits into `["a", "*b"]`;
  - `str.join`;
  - `str.strip()`, which strips Unicode whitespace as `str.isspace` defines
    it;
  - `str.strip(chars)`;
  - `str(int)`;
  - a filtering list comprehension.
- `TextWrap` states `textwrap.dedent` in full, as CPython implements it up to
  version 3.13, in three steps:
  - lines made only of spaces and tabs are emptied;
  - the margin is the longest common run of leading spaces and tabs among the
    remaining non-empty lines;
  - that margin is removed from every line that starts with it.
- `build_latex_source` is a method with the same loop as the source.
  `make_equation_block` is a method with the same conditional append. Both
  are proved equal to pure functions (`LatexSource`, `EquationBlock`), and
  the properties are proved about those functions.

Details of `main.py` the model keeps:

- the heading is `\textbf{Ecuación i}`;
- the default title is `"Ecuaciones"`;
- each kept piece is stripped of `*`, space and `\n` only, so a tab or `\r` at
  either end survives;
- a piece made only of stars, such as `"*"`, is kept and becomes the empty
  equation `""`. It is not discarded.

The template in `make_equation_block` is a raw f-string:

- `\\begin{verbatim}` and `\\end{verbatim}` keep both backslashes;
- `{{`/`}}` become single braces;
- `%%%%%%` stays as six percent signs;
- the source file's CRLF line ends are read by Python as `\n`.

## Model

| member | source | states |
|---|---|---|
| PyStr.Split | main.py:102 | `str.split(sep)` always gives at least one piece |
| PyStr.Join | main.py:74 | `sep.join(pieces)` starts with the first piece; `JoinSplit` and `SplitJoin` make it the inverse of `str.split` |
| PyStr.JoinSplit | main.py:102 | joining the pieces of `raw.split("**")` with `"**"` gives back `raw` |
| PyStr.SplitCount | main.py:102 | there is one more piece than there are leftmost non-overlapping occurrences of the separator |
| PyStr.SplitPieces | main.py:102 | the last piece contains no separator, and each earlier piece followed by the separator first meets the separator at that appended one (leftmost matching) |
| PyStr.SplitJoin | main.py:102 | pieces of that shape are exactly what splitting their join gives back, so the pieces are determined by the input |
| PyStr.LStrip | main.py:102 | `s.lstrip(chars)` is a suffix of `s` whose cut-off prefix is all in `chars` and which does not start with one of them |
| PyStr.RStrip | main.py:102 | `s.rstrip(chars)` is a prefix of `s` whose cut-off suffix is all in `chars` and which does not end with one of them |
| PyStr.Strip | main.py:98-102 | `s.strip(chars)` is a contiguous middle of `s`; the parts cut off at both ends are all in `chars`; the result is empty iff every character of `s` is in `chars`; otherwise it neither starts nor ends with one of them |
| PyStr.NatToString | main.py:72 | `str(i)` is a non-empty string of decimal digits with no leading zero |
| PyStr.NatToStringRoundTrip | main.py:72 | reading the digits of `str(i)` gives back `i` |
| PyStr.Comprehension | main.py:102 | a filtering list comprehension has at most one value per item; `ComprehensionOfItem` and `ComprehensionSource` say exactly which values, in which order |
| PyStr.ComprehensionOfItem | main.py:102 | each item that passes the filter yields its mapped value, placed after the values of the items before it |
| PyStr.ComprehensionSource | main.py:102 | each value of the comprehension comes from an item that passes the filter, in the order of the items |
| TextWrap.Dedent | main.py:50 | `textwrap.dedent` only removes characters, so its result is never longer than its input; the rows below state its result line by line |
| TextWrap.MarginOf | main.py:50 | dedent's margin is absent iff every line is blank; it is made of spaces and tabs and starts the indentation of every non-blank line |
| TextWrap.MarginExtend | main.py:50 | folding one more non-blank line into the margin keeps a run of spaces and tabs that starts the indentation of every non-blank line so far |
| TextWrap.MarginIsLongest | main.py:50 | the margin is the longest such common indentation |
| TextWrap.DedentLineByLine | main.py:50 | dedent keeps the line count, empties blank lines, and removes from every other line exactly the margin |
| TextWrap.DedentOneLine | main.py:50 | one line under `dedent`: a line of spaces and tabs becomes empty; any other line is the margin followed by its output line |
| TextWrap.DedentWithoutMargin | main.py:50 | a non-blank line with no indentation makes the margin empty, and dedent then only empties blank lines |
| TextWrap.DedentMixedIndent | main.py:50 | two non-blank lines whose indentations do not start with the same character, or one of which is not indented, make the margin empty, and dedent then only empties blank lines |
| TextWrap.DedentEndsWith | main.py:50 | a text whose next-to-last line is indented `mark` and whose last line is blank dedents to a text ending with `mark` and a newline, whatever the margin |
| Decoder.Kept | main.py:102 | the filter `e.strip()` is non-empty iff the piece holds a character that is not whitespace |
| Decoder.Clean | main.py:102 | the mapping `e.strip("* \n")` is no longer than the piece and neither starts nor ends with `*`, space or `\n` |
| Decoder.Fragments | main.py:102 | the comprehension gives at most one equation per piece; `FragmentOfPiece` and `FragmentSource` say which, in order |
| Decoder.Decode | main.py:98-105 | the decoder fails only with status 400 and never succeeds with an empty list |
| Decoder.DecodeEmptyInput | main.py:98-99 | the input is rejected as empty iff it is made only of whitespace |
| Decoder.DecodeOutcome | main.py:98-105 | decoding succeeds iff the comprehension over the `**` pieces is non-empty, and then returns exactly it; the "no equations" 400 is given iff the input is not blank but no piece survives |
| Decoder.FragmentsTrimmed | main.py:102 | no equation starts or ends with `*`, space or `\n`, though one may be empty |
| Decoder.FragmentOfPiece | main.py:102 | every piece with a non-whitespace character gives an equation, its `strip("* \n")`, after those of the earlier pieces |
| Decoder.FragmentSource | main.py:102 | every equation is the `strip("* \n")` of a piece with a non-whitespace character, in the order of the pieces |
| Decoder.NoFragmentsFromBlank | main.py:102 | pieces made only of whitespace give no equation |
| Decoder.DecodeCount | main.py:102 | there are at most as many equations as `**` occurrences plus one |
| Decoder.DecodeSingle | main.py:102 | input without `**` that is not blank gives the one equation `raw.strip("* \n")` |
| Decoder.ExampleStar | main.py:102-105 | `"*"` decodes to the single empty equation |
| Decoder.ExampleDoubleStar | main.py:102-105 | `"**"` is rejected with "no equations found" |
| Decoder.SplitOdd | main.py:102 | `"a***b".split("**")` is `["a", "*b"]`: the separator is the first two stars |
| Decoder.PlainChar | main.py:102 | a one-character piece that is neither whitespace nor a stripped character is kept unchanged |
| Decoder.CleanStarPlain | main.py:102 | a star followed by such a character is kept, and strips to that character |
| Decoder.FragmentsPlainStar | main.py:102 | the pieces `a` and `*b` give the equations `a` and `b` |
| Decoder.ExampleOdd | main.py:102 | `"a***b"` splits into `"a"` and `"*b"` and decodes to `["a", "b"]` |
| Decoder.ExampleTab | main.py:102 | `"\tx"` decodes to `["\tx"]`: the tab survives the strip |
| Decoder.TabThenPlain | main.py:98-105 | a tab followed by an ordinary character decodes to that very string: the filter sees the tab as whitespace, the strip keeps it |
| Assembler.FixedTexts | main.py:15-45 | `LATEX_PREAMBLE`, `LATEX_BEGIN` and `LATEX_END` each start and end with a newline; the title block opens `\begin{document}` and `LATEX_END` holds `\end{document}` |
| Assembler.LatexBegin | main.py:35-41 | `LATEX_BEGIN % {"title": title}` is the text before the field, the title unchanged, then the text after it |
| Assembler.BeginTemplateOneField | main.py:35-41 | the `%(title)s` field is the only `%` in `LATEX_BEGIN`, so the formatting changes nothing else |
| Assembler.TemplateSegments | main.py:50-62 | the raw f-string is 13 newline-separated pieces: the equation indented after `\noindent`, the equation alone inside `verbatim`, and, by `FixedSegments`, eleven fixed single lines |
| Assembler.EquationBlock | main.py:47-67 | `make_equation_block` ends with the end-of-block marker and a newline, followed by the page break when one is asked for |
| Assembler.MakeEquationBlock | main.py:47-67 | the block equals the dedented template plus the optional page break; it ends with a page break iff the flag is set, and otherwise with the end-of-block marker and a newline |
| Assembler.DedentedBlockEnding | main.py:50-62 | for every equation, the dedented block ends with `%%%%%% Equation Block End %%%%%%` and a newline |
| Assembler.EquationBlockEnding | main.py:61-65 | the block ends with the end marker, a newline and then `"\n\\clearpage\n"` iff the flag is set |
| Assembler.TemplateMarginEmpty | main.py:50-58 | an equation that starts with neither a space nor a newline, and whose first line is not blank, makes the dedent margin empty: its indented copy starts a line with a space, its verbatim copy starts a line with a tab or with no indentation |
| Assembler.EquationBlockDedent | main.py:50-62 | for such an equation, the block is the template with the equation's blank lines emptied, less its last four spaces |
| Assembler.EquationBlockVerbatim | main.py:50-62 | if such an equation also has no line of only spaces and tabs, both copies appear unchanged: the block plus four spaces is the raw template |
| Assembler.TabEquationVerbatim | main.py:50-62 | a tab followed by an ordinary character, which the decoder keeps as it is, appears unchanged in both copies |
| Assembler.BuildLatexSource | main.py:69-77 | the loop's document is `LatexSource`: preamble, title block, heading/block parts joined by newlines, closing line |
| Assembler.BodyPartsNext | main.py:71-73 | one more turn of the loop appends the heading numbered `i + 1` and then the block of equation `i` |
| Assembler.BodyParts | main.py:70-73 | there are two body parts per equation |
| Assembler.BodyPartsShape | main.py:70-73 | part `2k` is the heading numbered `k + 1` and part `2k + 1` is the block of equation `k`, in input order |
| Assembler.Heading | main.py:72 | the heading is `\textbf{Ecuación `, the digits of `i`, then `}` and a newline |
| Assembler.HeadingNumber | main.py:72 | the `i`-th heading is `\textbf{Ecuación `, the digits of `i`, then `}` and a newline |
| Assembler.PageBreakCount | main.py:64-65 | exactly N body parts end with a page break when the flag is set, none when it is not |
| Assembler.LatexSourceFrame | main.py:76 | the document starts with the preamble, followed by the title block holding the title as given |
| Assembler.LatexSource | main.py:69-77 | the document ends with `LATEX_END`; with no equations the body is empty, so the document is the preamble, the title block and `LATEX_END` |
| Assembler.LatexSourceFirstHeading | main.py:74-76 | with equations, the body right after the title block starts with the heading `Ecuación 1` |
| Assembler.DocumentShape | main.py:69-77 | a document with equations starts with the preamble, ends with `LATEX_END`, has heading 1 right after the title block, two body parts per equation, and one page break per block exactly when the flag is set |
| Render.RequestWithDefaults | main.py:10-13 | a request without the optional fields has no page breaks and the title "Ecuaciones" |
| Render.RenderTex | main.py:97-107 | `render_pdf` fails iff the decoder fails, with the same 400 error; otherwise it yields the document for the decoded equations, title and flag |
| Render.RenderedDocument | main.py:97-107 | a request that decodes to N equations gives a document with the preamble first, `LATEX_END` last, heading 1 right after the title block, 2N body parts, and N or 0 page breaks depending on the flag |

## Left out

- FastAPI routing, the pydantic model's validation, and the `GET /` example payload are framework plumbing. `RenderRequest` (main.py:10-13) is a plain datatype with the three fields; its defaults are stated by `Render.RequestWithDefaults`.
- `run_latexmk` and the compile step of `render_pdf` are not modelled: they are external `latexmk` processes.
- Also not modelled: the temporary directory, writing `document.tex`, reading the PDF, the 500 error and the response headers. These are filesystem and HTTP I/O.
- LaTeX semantics are not modelled: whether the document compiles, and how the unescaped equation or the doubled-backslash `\\begin{verbatim}` renders. The model covers only the produced text.
- `textwrap.dedent` of Python 3.14 and later is not modelled. It treats lines of other whitespace, such as `\r`, differently from the regular-expression version modelled here.
- Assembler.LatexSourceFrame: states where the preamble is, not that its text occurs nowhere else. An equation may itself contain that text.
- Assembler.LatexSource: states where `LATEX_END` is, not that its text occurs nowhere else, for the same reason.
- Assembler.EquationBlockVerbatim: holds only for equations that start with neither a space nor a newline, whose first line holds more than spaces and tabs, and that have no line of only spaces and tabs. Otherwise `dedent` may empty such lines or remove a common margin. For example, the empty equation that `"*"` decodes to makes every template line lose its four spaces.
- Assembler.EquationBlockDedent: covers the same starting condition only. The condition is sufficient, not necessary: a later unindented line of the equation also empties the margin. For other equations, only `TextWrap.DedentLineByLine` and `Assembler.DedentedBlockEnding` describe the block.
