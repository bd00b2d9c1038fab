/**
 * `textwrap.dedent`, as CPython implements it with regular expressions
 * (up to Python 3.13), stated line by line:
 *   1. every line made only of spaces and tabs becomes empty;
 *   2. the margin is the longest common prefix of the leading spaces and
 *      tabs of the lines that are left non-empty (none if all are empty);
 *   3. if the margin is non-empty, it is removed from the start of every
 *      line that begins with it.
 * Lines are separated by '\n' only.
 */
module TextWrap {
  import opened Wrappers
  import opened PyStr

  /** The characters `dedent` treats as indentation. */
  const IndentChars: set<char> := {' ', '\t'}

  /** The lines of `text`: its pieces between '\n' characters. */
  function Lines(text: string): (ls: seq<string>)
    ensures |ls| >= 1
    ensures forall k :: 0 <= k < |ls| ==> '\n' !in ls[k]
  {
    CharSepPieces(text, '\n');
    Split(text, "\n")
  }

  /** The text whose lines are `ls`. */
  function Unlines(ls: seq<string>): string {
    Join(ls, "\n")
  }

  /** A line of spaces and tabs only is emptied; any other line is kept. */
  function BlankLine(l: string): string {
    if AllIn(l, IndentChars) then "" else l
  }

  function BlankLines(ls: seq<string>): (r: seq<string>)
    ensures |r| == |ls|
  {
    seq(|ls|, k requires 0 <= k < |ls| => BlankLine(ls[k]))
  }

  /** The run of spaces and tabs at the start of `l`. */
  function Indent(l: string): (r: string)
    ensures StartsWith(l, r) && AllIn(r, IndentChars)
    ensures |r| == |l| || l[|r|] !in IndentChars
  {
    var rest := LStrip(l, IndentChars);
    assert l[|l| - |rest|..] == rest;
    l[..|l| - |rest|]
  }

  /** The longest common prefix of `a` and `b`. */
  function CommonPrefix(a: string, b: string): (r: string)
    ensures StartsWith(a, r) && StartsWith(b, r)
    ensures |r| == |a| || |r| == |b| || a[|r|] != b[|r|]
  {
    if a != "" && b != "" && a[0] == b[0] then
      var r := [a[0]] + CommonPrefix(a[1..], b[1..]);
      assert a == [a[0]] + a[1..] && b == [b[0]] + b[1..];
      r
    else ""
  }

  lemma StartsWithTrans(a: string, b: string, c: string)
    requires StartsWith(a, b) && StartsWith(b, c)
    ensures StartsWith(a, c)
  {
    assert a[..|c|] == a[..|b|][..|c|];
  }

  /**
   * The margin `dedent` computes for the lines `ls`: the indentations of the
   * lines that hold something besides spaces and tabs are folded from the
   * first line to the last, each step keeping the common prefix; there is no
   * margin when there is no such line.
   */
  function MarginOf(ls: seq<string>): (r: Option<string>)
    ensures r.None? <==> forall k :: 0 <= k < |ls| ==> AllIn(ls[k], IndentChars)
    ensures r.Some? ==> AllIn(r.value, IndentChars)
    ensures r.Some? ==> forall k :: 0 <= k < |ls| && !AllIn(ls[k], IndentChars) ==>
      StartsWith(Indent(ls[k]), r.value)
  {
    if ls == [] then None
    else
      var init := ls[..|ls| - 1];
      var last := ls[|ls| - 1];
      var m := MarginOf(init);
      assert forall k :: 0 <= k < |init| ==> init[k] == ls[k];
      if AllIn(last, IndentChars) then
        MarginKeep(ls, m);
        m
      else if m.None? then
        MarginFirst(ls);
        Some(Indent(last))
      else
        var r := CommonPrefix(m.value, Indent(last));
        MarginExtend(ls, m.value, r);
        Some(r)
  }

  /** A blank line leaves the margin of the lines before it unchanged. */
  lemma MarginKeep(ls: seq<string>, m: Option<string>)
    requires |ls| > 0 && AllIn(ls[|ls| - 1], IndentChars)
    requires m.None? <==> forall k :: 0 <= k < |ls| - 1 ==> AllIn(ls[k], IndentChars)
    requires m.Some? ==> AllIn(m.value, IndentChars)
    requires m.Some? ==> forall k :: 0 <= k < |ls| - 1 && !AllIn(ls[k], IndentChars) ==>
      StartsWith(Indent(ls[k]), m.value)
    ensures m.None? <==> forall k :: 0 <= k < |ls| ==> AllIn(ls[k], IndentChars)
    ensures m.Some? ==> forall k :: 0 <= k < |ls| && !AllIn(ls[k], IndentChars) ==>
      StartsWith(Indent(ls[k]), m.value)
  {
  }

  /** The first non-blank line gives its own indentation as the margin. */
  lemma MarginFirst(ls: seq<string>)
    requires |ls| > 0 && !AllIn(ls[|ls| - 1], IndentChars)
    requires forall k :: 0 <= k < |ls| - 1 ==> AllIn(ls[k], IndentChars)
    ensures forall k :: 0 <= k < |ls| && !AllIn(ls[k], IndentChars) ==>
      StartsWith(Indent(ls[k]), Indent(ls[|ls| - 1]))
  {
  }

  /**
   * Folding one more non-blank line into the margin `mv` of the lines
   * before it keeps a margin of spaces and tabs common to all of them.
   */
  lemma MarginExtend(ls: seq<string>, mv: string, r: string)
    requires |ls| > 0 && !AllIn(ls[|ls| - 1], IndentChars) && AllIn(mv, IndentChars)
    requires forall k :: 0 <= k < |ls| - 1 && !AllIn(ls[k], IndentChars) ==> StartsWith(Indent(ls[k]), mv)
    requires StartsWith(mv, r) && StartsWith(Indent(ls[|ls| - 1]), r)
    ensures AllIn(r, IndentChars)
    ensures forall k :: 0 <= k < |ls| && !AllIn(ls[k], IndentChars) ==> StartsWith(Indent(ls[k]), r)
  {
    forall k | 0 <= k < |ls| - 1 && !AllIn(ls[k], IndentChars)
      ensures StartsWith(Indent(ls[k]), r)
    {
      StartsWithTrans(Indent(ls[k]), mv, r);
    }
    AllInPrefix(mv, r, IndentChars);
  }

  lemma AllInPrefix(s: string, p: string, cs: set<char>)
    requires StartsWith(s, p) && AllIn(s, cs)
    ensures AllIn(p, cs)
  {
    forall i | 0 <= i < |p| ensures p[i] in cs {
      assert p[i] == s[i];
    }
  }

  /** `margin` is removed from every line that starts with it. */
  function RemoveMargin(ls: seq<string>, margin: string): (r: seq<string>)
    ensures |r| == |ls|
  {
    seq(|ls|, k requires 0 <= k < |ls| =>
      if StartsWith(ls[k], margin) then ls[k][|margin|..] else ls[k])
  }

  /** `textwrap.dedent(text)`: it only removes characters, so it is never longer than `text`. */
  function Dedent(text: string): (r: string)
    ensures |r| <= |text|
  {
    var ls := BlankLines(Lines(text));
    var margin := MarginOf(ls);
    UnlinesLines(text);
    JoinShorter(Lines(text), ls, "\n");
    if margin.Some? && margin.value != "" then
      JoinShorter(ls, RemoveMargin(ls, margin.value), "\n");
      Unlines(RemoveMargin(ls, margin.value))
    else Unlines(ls)
  }

  /** The margin `dedent` removes from `text` ("" when it removes none). */
  function DedentMargin(text: string): string {
    match MarginOf(BlankLines(Lines(text)))
    case None => ""
    case Some(m) => m
  }

  // ---------------------------------------------------------------------
  // lines and unlines
  // ---------------------------------------------------------------------

  lemma NoNewlineLines(ls: seq<string>)
    requires |ls| >= 1 && forall k :: 0 <= k < |ls| ==> '\n' !in ls[k]
    ensures Lines(Unlines(ls)) == ls
  {
    forall k | 0 <= k < |ls| ensures NoSep(ls[k], "\n") && NoEarlySep(ls[k], "\n") {
      CharSepFree(ls[k], '\n');
    }
    SplitJoin(ls, "\n");
  }

  lemma UnlinesLines(text: string)
    ensures Unlines(Lines(text)) == text
  {
    JoinSplit(text, "\n");
  }

  /** A string without a newline is a single line. */
  lemma OneLine(l: string)
    requires '\n' !in l
    ensures Lines(l) == [l]
  {
    CharSepFree(l, '\n');
    SplitNoSep(l, "\n");
  }

  /** A prefix without a newline is glued to the first line. */
  lemma {:induction false} LinesPrefix(x: string, s: string)
    requires '\n' !in x
    ensures Lines(x + s) == [x + Lines(s)[0]] + Lines(s)[1..]
  {
    if x != "" {
      LinesPrefix(x[1..], s);
      assert x[0] != '\n';
      assert (x + s)[1..] == x[1..] + s;
      assert (x + s)[..1] == [x[0]] != "\n";
      var rest := Lines(x[1..] + s);
      assert Lines(x + s) == [[x[0]] + rest[0]] + rest[1..];
      assert [x[0]] + (x[1..] + Lines(s)[0]) == x + Lines(s)[0];
    } else {
      assert x + s == s;
      assert x + Lines(s)[0] == Lines(s)[0];
      assert [x + Lines(s)[0]] + Lines(s)[1..] == Lines(s);
    }
  }

  /** A text that does not start with a newline starts its first line. */
  lemma LinesHead(s: string)
    requires s != "" && s[0] != '\n'
    ensures Lines(s)[0] != "" && Lines(s)[0][0] == s[0]
  {
    assert s[..1] == [s[0]];
  }

  /** The lines of each text of `ss`, one after the other. */
  function FlatLines(ss: seq<string>): (ls: seq<string>)
    ensures |ls| >= |ss|
  {
    if ss == [] then [] else Lines(ss[0]) + FlatLines(ss[1..])
  }

  lemma {:induction false} FlatLinesAppend(a: seq<string>, b: seq<string>)
    ensures FlatLines(a + b) == FlatLines(a) + FlatLines(b)
  {
    if a != [] {
      assert (a + b)[1..] == a[1..] + b;
      FlatLinesAppend(a[1..], b);
    } else {
      assert a + b == b;
    }
  }

  /** The first line of the text `ss[i]` sits among the lines of `ss` right after those of the texts before it. */
  lemma FlatLinesAt(ss: seq<string>, i: nat)
    requires i < |ss|
    ensures |FlatLines(ss[..i])| < |FlatLines(ss)|
    ensures FlatLines(ss)[|FlatLines(ss[..i])|] == Lines(ss[i])[0]
  {
    assert ss == ss[..i] + ss[i..];
    FlatLinesAppend(ss[..i], ss[i..]);
    assert ss[i..][1..] == ss[i + 1..];
  }

  /** Joining texts with newlines joins their lines. */
  lemma {:induction false} LinesOfUnlines(ss: seq<string>)
    requires |ss| >= 1
    ensures Lines(Unlines(ss)) == FlatLines(ss)
  {
    if |ss| > 1 {
      LinesOfUnlines(ss[1..]);
      SplitCharAppend(ss[0], Unlines(ss[1..]), '\n');
    }
  }

  lemma {:induction false} UnlinesFlat(ss: seq<string>)
    requires |ss| >= 1
    ensures Unlines(FlatLines(ss)) == Unlines(ss)
  {
    UnlinesLines(ss[0]);
    if |ss| > 1 {
      UnlinesFlat(ss[1..]);
      JoinAppend(Lines(ss[0]), FlatLines(ss[1..]), "\n");
    } else {
      assert ss[1..] == [];
      assert FlatLines(ss) == Lines(ss[0]);
    }
  }

  /** The text of `ls` followed by the lines `x` and "" ends with `x` and a newline. */
  lemma UnlinesEndsWith(ls: seq<string>, x: string)
    ensures EndsWith(Unlines(ls + [x, ""]), x + "\n")
  {
    if ls == [] {
      assert ls + [x, ""] == [x, ""];
      assert Unlines([x, ""]) == x + "\n" + "";
    } else {
      JoinAppend(ls, [x, ""], "\n");
      assert Unlines([x, ""]) == x + "\n" + "";
      assert Unlines(ls + [x, ""]) == (Unlines(ls) + "\n") + (x + "\n");
    }
  }

  // ---------------------------------------------------------------------
  // properties of the steps
  // ---------------------------------------------------------------------

  lemma BlankLinesAppend(a: seq<string>, b: seq<string>)
    ensures BlankLines(a + b) == BlankLines(a) + BlankLines(b)
  {
  }

  /**
   * Blanking texts line by line: if blanking the lines of each `ss[i]` gives
   * the lines of `ts[i]`, blanking all the lines of `ss` gives those of `ts`.
   */
  lemma {:induction false} BlankFlat(ss: seq<string>, ts: seq<string>)
    requires |ss| == |ts|
    requires forall i :: 0 <= i < |ss| ==> BlankLines(Lines(ss[i])) == Lines(ts[i])
    ensures BlankLines(FlatLines(ss)) == FlatLines(ts)
  {
    if ss != [] {
      BlankFlat(ss[1..], ts[1..]);
      BlankLinesAppend(Lines(ss[0]), FlatLines(ss[1..]));
    }
  }

  /**
   * The same, when every text outside `multi` is a single line and the
   * matching text is its blanked form.
   */
  lemma BlankFlatSingles(ss: seq<string>, ts: seq<string>, multi: set<int>)
    requires |ss| == |ts|
    requires forall i :: 0 <= i < |ss| && i !in multi ==> '\n' !in ss[i] && ts[i] == BlankLine(ss[i])
    requires forall i :: 0 <= i < |ss| && i in multi ==> BlankLines(Lines(ss[i])) == Lines(ts[i])
    ensures BlankLines(FlatLines(ss)) == FlatLines(ts)
  {
    forall i | 0 <= i < |ss| ensures BlankLines(Lines(ss[i])) == Lines(ts[i]) {
      if i !in multi {
        OneLine(ss[i]);
        OneLine(ts[i]);
      }
    }
    BlankFlat(ss, ts);
  }

  lemma CommonPrefixGreatest(a: string, b: string, p: string)
    requires StartsWith(a, p) && StartsWith(b, p)
    ensures StartsWith(CommonPrefix(a, b), p)
    decreases |p|
  {
    if p != "" {
      assert a[0] == p[0] == b[0];
      CommonPrefixGreatest(a[1..], b[1..], p[1..]);
      assert a[1..][..|p| - 1] == a[..|p|][1..];
      assert b[1..][..|p| - 1] == b[..|p|][1..];
    }
  }

  /**
   * The margin is the LONGEST common indentation: every string that all
   * non-blank lines' indentations start with is a prefix of it.
   */
  lemma {:induction false} MarginIsLongest(ls: seq<string>, p: string)
    requires MarginOf(ls).Some?
    requires forall k :: 0 <= k < |ls| && !AllIn(ls[k], IndentChars) ==> StartsWith(Indent(ls[k]), p)
    ensures StartsWith(MarginOf(ls).value, p)
  {
    var init := ls[..|ls| - 1];
    var last := ls[|ls| - 1];
    assert forall k :: 0 <= k < |init| ==> init[k] == ls[k];
    if !AllIn(last, IndentChars) && MarginOf(init).Some? {
      MarginIsLongest(init, p);
      CommonPrefixGreatest(MarginOf(init).value, Indent(last), p);
    } else if AllIn(last, IndentChars) {
      MarginIsLongest(init, p);
    }
  }

  /** The lines `dedent` produces, before they are joined. */
  function DedentedLines(text: string): (r: seq<string>)
    ensures Unlines(r) == Dedent(text)
  {
    var ls := BlankLines(Lines(text));
    var margin := MarginOf(ls);
    if margin.Some? && margin.value != "" then RemoveMargin(ls, margin.value) else ls
  }

  lemma NoNewlineSuffix(l: string, j: nat)
    requires '\n' !in l && j <= |l|
    ensures '\n' !in l[j..]
  {
    assert forall i :: 0 <= i < |l| - j ==> l[j..][i] == l[j + i];
  }

  lemma LinesOfDedent(text: string)
    ensures Lines(Dedent(text)) == DedentedLines(text)
  {
    var ins := Lines(text);
    var ls := BlankLines(ins);
    var outLines := DedentedLines(text);
    forall k | 0 <= k < |outLines| ensures '\n' !in outLines[k] {
      assert '\n' !in ins[k];
      if outLines[k] != ls[k] {
        NoNewlineSuffix(ls[k], |MarginOf(ls).value|);
      }
    }
    NoNewlineLines(outLines);
  }

  /**
   * `dedent`, line by line: the line count is kept, a line of spaces and tabs
   * becomes empty, and every other line loses exactly the margin, which is
   * made of spaces and tabs and starts every such line.
   */
  lemma DedentLineByLine(text: string)
    ensures var ins := Lines(text);
      var outs := Lines(Dedent(text));
      var m := DedentMargin(text);
      && |outs| == |ins|
      && AllIn(m, IndentChars)
      && forall k :: 0 <= k < |ins| ==>
           if AllIn(ins[k], IndentChars) then outs[k] == "" else ins[k] == m + outs[k]
  {
    var ins := Lines(text);
    var ls := BlankLines(ins);
    var m := DedentMargin(text);
    LinesOfDedent(text);
    var outs := DedentedLines(text);
    forall k | 0 <= k < |ins| && !AllIn(ins[k], IndentChars)
      ensures StartsWith(Indent(ins[k]), m)
    {
      assert ls[k] == ins[k];
    }
    forall k | 0 <= k < |ins|
      ensures if AllIn(ins[k], IndentChars) then outs[k] == "" else ins[k] == m + outs[k]
    {
      DedentOneLine(ins[k], m, outs[k]);
    }
  }

  /** One line under `dedent`: emptied if blank, otherwise it loses the margin it starts with. */
  lemma DedentOneLine(line: string, m: string, out: string)
    requires out == if m != "" && StartsWith(BlankLine(line), m) then BlankLine(line)[|m|..] else BlankLine(line)
    requires !AllIn(line, IndentChars) ==> StartsWith(Indent(line), m)
    ensures if AllIn(line, IndentChars) then out == "" else line == m + out
  {
    if !AllIn(line, IndentChars) {
      StartsWithTrans(line, Indent(line), m);
      assert line == line[..|m|] + line[|m|..];
    }
  }

  /**
   * When some non-blank line is not indented at all, the margin is empty and
   * `dedent` only empties the lines made of spaces and tabs.
   */
  lemma DedentWithoutMargin(text: string, k: nat)
    requires k < |Lines(text)|
    requires !AllIn(Lines(text)[k], IndentChars) && Indent(Lines(text)[k]) == ""
    ensures DedentMargin(text) == ""
    ensures Dedent(text) == Unlines(BlankLines(Lines(text)))
  {
    var ls := BlankLines(Lines(text));
    assert ls[k] == Lines(text)[k];
  }

  /** A line is indented exactly when it starts with a space or a tab, and its indentation then starts with that character. */
  lemma IndentFirst(l: string)
    requires l != ""
    ensures Indent(l) == "" <==> l[0] !in IndentChars
    ensures Indent(l) != "" ==> Indent(l)[0] == l[0]
  {
  }

  /**
   * Two non-blank lines whose indentations do not start with the same
   * character (or one of which is not indented) share no margin, so
   * `dedent` only empties the lines made of spaces and tabs.
   */
  lemma DedentMixedIndent(text: string, j: nat, k: nat)
    requires j < |Lines(text)| && k < |Lines(text)|
    requires !AllIn(Lines(text)[j], IndentChars) && !AllIn(Lines(text)[k], IndentChars)
    requires var a, b := Indent(Lines(text)[j]), Indent(Lines(text)[k]);
      a == "" || b == "" || a[0] != b[0]
    ensures DedentMargin(text) == ""
    ensures Dedent(text) == Unlines(BlankLines(Lines(text)))
  {
    var ls := BlankLines(Lines(text));
    assert ls[j] == Lines(text)[j] && ls[k] == Lines(text)[k];
    var a, b := Indent(ls[j]), Indent(ls[k]);
    var m := DedentMargin(text);
    assert StartsWith(a, m) && StartsWith(b, m);
    NoCommonStart(a, b, m);
  }

  /** Two strings that do not start with the same character have no non-empty common prefix. */
  lemma NoCommonStart(a: string, b: string, m: string)
    requires StartsWith(a, m) && StartsWith(b, m)
    requires a == "" || b == "" || a[0] != b[0]
    ensures m == ""
  {
  }

  /**
   * The same for a text made of the texts `ss`, when the first lines of
   * `ss[i]` and `ss[j]` are such lines.
   */
  lemma DedentSegmentsMixed(ss: seq<string>, i: nat, j: nat)
    requires |ss| >= 1 && i < |ss| && j < |ss|
    requires var a, b := Lines(ss[i])[0], Lines(ss[j])[0];
      !AllIn(a, IndentChars) && !AllIn(b, IndentChars) &&
      (Indent(a) == "" || Indent(b) == "" || Indent(a)[0] != Indent(b)[0])
    ensures DedentMargin(Unlines(ss)) == ""
    ensures Dedent(Unlines(ss)) == Unlines(BlankLines(FlatLines(ss)))
  {
    LinesOfUnlines(ss);
    FlatLinesAt(ss, i);
    FlatLinesAt(ss, j);
    DedentMixedIndent(Unlines(ss), |FlatLines(ss[..i])|, |FlatLines(ss[..j])|);
  }

  /** A line that starts with `pre`, all spaces and tabs, then something else, is indented by `pre`. */
  lemma {:induction false} IndentOf(pre: string, rest: string)
    requires AllIn(pre, IndentChars) && rest != "" && rest[0] !in IndentChars
    ensures Indent(pre + rest) == pre
  {
    var l := pre + rest;
    assert l[..|pre|] == pre;
  }

  /**
   * A text whose last two lines are `x`, holding more than spaces and tabs,
   * and a line of spaces and tabs only, dedents to a text ending with `x`
   * less the margin, and a newline.
   */
  lemma DedentLastLines(text: string, pre: seq<string>, x: string, y: string)
    requires Lines(text) == pre + [x, y]
    requires !AllIn(x, IndentChars) && AllIn(y, IndentChars)
    ensures StartsWith(x, DedentMargin(text))
    ensures EndsWith(Dedent(text), x[|DedentMargin(text)|..] + "\n")
  {
    var m := DedentMargin(text);
    DedentLineByLine(text);
    var outs := Lines(Dedent(text));
    var n := |outs|;
    assert Lines(text)[n - 2] == x && Lines(text)[n - 1] == y;
    assert x == m + outs[n - 2] && outs[n - 1] == "";
    assert x[..|m|] == m && x[|m|..] == outs[n - 2];
    LastTwo(outs);
    UnlinesLines(Dedent(text));
    UnlinesEndsWith(outs[..n - 2], outs[n - 2]);
  }

  lemma LastTwo<T>(xs: seq<T>)
    requires |xs| >= 2
    ensures xs == xs[..|xs| - 2] + [xs[|xs| - 2], xs[|xs| - 1]]
  {
  }

  /** Texts joined by newlines, the last two of them single lines, end with those two lines. */
  lemma LinesOfUnlinesEnd(pre: seq<string>, x: string, y: string)
    requires '\n' !in x && '\n' !in y
    ensures Lines(Unlines(pre + [x, y])) == FlatLines(pre) + [x, y]
  {
    LinesOfUnlines(pre + [x, y]);
    FlatLinesAppend(pre, [x, y]);
    OneLine(x);
    OneLine(y);
    assert [x, y][1..] == [y] && [y][1..] == [];
    assert FlatLines([y]) == [y];
    assert FlatLines([x, y]) == [x] + [y];
  }

  /**
   * When the next-to-last line of a text is indented by spaces and tabs
   * `ind` before `mark`, and the last line is spaces and tabs only, the
   * dedented text ends with `mark` and a newline, whatever the margin.
   */
  lemma DedentEndsWith(text: string, pre: seq<string>, ind: string, mark: string, y: string)
    requires Lines(text) == pre + [ind + mark, y]
    requires AllIn(ind, IndentChars) && mark != "" && mark[0] !in IndentChars
    requires AllIn(y, IndentChars)
    ensures EndsWith(Dedent(text), mark + "\n")
  {
    var x := ind + mark;
    assert x[|ind|] == mark[0];
    assert !AllIn(x, IndentChars);
    DedentLastLines(text, pre, x, y);
    var m := DedentMargin(text);
    MarginWithinIndent(x, ind, mark, m);
    var o := x[|m|..];
    assert EndsWith(o, mark) by {
      assert o[|o| - |mark|..] == x[|ind|..] == mark;
    }
    EndsWithTrans(Dedent(text), o, mark, "\n");
  }

  /** The same, for a text made of the texts `ss` whose last two are single lines. */
  lemma DedentSegmentsEnd(ss: seq<string>, ind: string, mark: string, y: string)
    requires |ss| >= 2 && ss[|ss| - 2] == ind + mark && ss[|ss| - 1] == y
    requires '\n' !in ind + mark && '\n' !in y
    requires AllIn(ind, IndentChars) && mark != "" && mark[0] !in IndentChars
    requires AllIn(y, IndentChars)
    ensures EndsWith(Dedent(Unlines(ss)), mark + "\n")
  {
    var pre := ss[..|ss| - 2];
    assert ss == pre + [ind + mark, y];
    LinesOfUnlinesEnd(pre, ind + mark, y);
    DedentEndsWith(Unlines(ss), FlatLines(pre), ind, mark, y);
  }

  /** A run of spaces and tabs that starts `ind + mark` is no longer than `ind`. */
  lemma MarginWithinIndent(x: string, ind: string, mark: string, m: string)
    requires x == ind + mark && mark != "" && mark[0] !in IndentChars
    requires AllIn(m, IndentChars) && StartsWith(x, m)
    ensures |m| <= |ind|
  {
    assert x[|ind|] !in IndentChars;
    assert forall i :: 0 <= i < |m| ==> m[i] == x[i];
  }

  /** `text` with each of its lines of spaces and tabs only emptied. */
  function BlankText(text: string): string {
    Unlines(BlankLines(Lines(text)))
  }

  lemma LinesOfBlankText(text: string)
    ensures Lines(BlankText(text)) == BlankLines(Lines(text))
  {
    var bl := BlankLines(Lines(text));
    forall k | 0 <= k < |bl| ensures '\n' !in bl[k] {
      assert bl[k] == "" || bl[k] == Lines(text)[k];
    }
    NoNewlineLines(bl);
  }

  /**
   * Indenting a text whose first line holds more than spaces and tabs leaves
   * that line non-blank; its other lines are blanked as before.
   */
  lemma IndentedBlankLines(ind: string, s: string)
    requires '\n' !in ind && !AllIn(Lines(s)[0], IndentChars)
    ensures BlankLines(Lines(ind + s)) == Lines(ind + BlankText(s))
  {
    LinesPrefix(ind, s);
    var l0 := Lines(s)[0];
    AllInAppend(ind, l0, IndentChars);
    var bt := BlankText(s);
    LinesOfBlankText(s);
    LinesPrefix(ind, bt);
    var ls := Lines(ind + s);
    var rs := Lines(ind + bt);
    assert |ls| == |rs|;
    forall k | 0 <= k < |ls| ensures BlankLine(ls[k]) == rs[k] {
      if k > 0 {
        assert ls[k] == Lines(s)[k];
        assert rs[k] == BlankLines(Lines(s))[k];
      }
    }
  }

  /** Appending to a text appends to its last line. */
  lemma UnlinesExtendLast(a: seq<string>, x: string, y: string)
    ensures Unlines(a + [x]) + y == Unlines(a + [x + y])
  {
    if a == [] {
      assert a + [x] == [x] && a + [x + y] == [x + y];
    } else {
      JoinAppend(a, [x], "\n");
      JoinAppend(a, [x + y], "\n");
    }
  }

  /** Emptying the last line of a text removes exactly that line's characters from its end. */
  lemma EmptiedLastLine(ss: seq<string>, ts: seq<string>)
    requires |ss| >= 1 && ts == ss[..|ss| - 1] + [""]
    ensures Unlines(ts) + ss[|ss| - 1] == Unlines(ss)
  {
    var n := |ss|;
    UnlinesExtendLast(ss[..n - 1], "", ss[n - 1]);
    assert "" + ss[n - 1] == ss[n - 1];
    assert ss == ss[..n - 1] + [ss[n - 1]];
  }
}
