/**
 * The request decoder at the start of `render_pdf`: a blank raw string is
 * rejected, the raw string is split on "**", every piece that holds a
 * non-whitespace character is kept and stripped of '*', ' ' and '\n' at both
 * ends, and an empty result is rejected. Both rejections are HTTP 400.
 *
 * The filter (`e.strip()`, all Unicode whitespace) and the mapping
 * (`e.strip("* \n")`) use different character sets: a piece of stars only is
 * kept and becomes the empty fragment, and a tab or '\r' at either end of a
 * piece survives.
 */
module Decoder {
  import opened Wrappers
  import opened PyStr

  /** The separator between equations in `equations_raw`. */
  const Delimiter: string := "**"

  /** The characters stripped from both ends of each kept piece. */
  const FragmentStripChars: set<char> := {'*', ' ', '\n'}

  /** An `HTTPException`: status code and detail message. */
  datatype HttpError = HttpError(status: nat, detail: string)

  const EmptyInput: HttpError := HttpError(400, "El string 'equations_raw' no puede estar vacío.")
  const NoEquations: HttpError := HttpError(400, "No se encontraron ecuaciones con el delimitador **.")

  /**
   * The comprehension's filter, `e.strip()` is non-empty: the piece holds a
   * character that is not whitespace.
   */
  predicate Kept(piece: string)
    ensures Kept(piece) <==> !AllIn(piece, Whitespace)
  {
    Strip(piece, Whitespace) != ""
  }

  /**
   * The comprehension's mapping, `e.strip("* \n")`: no longer than the
   * piece, and neither starting nor ending with '*', ' ' or '\n'.
   */
  function Clean(piece: string): (r: string)
    ensures |r| <= |piece| && Trimmed(r)
  {
    Strip(piece, FragmentStripChars)
  }

  /** A fragment neither starts nor ends with '*', ' ' or '\n'; it may be empty. */
  predicate Trimmed(f: string) {
    f == "" || (f[0] !in FragmentStripChars && f[|f| - 1] !in FragmentStripChars)
  }

  /** `[e.strip("* \n") for e in pieces if e.strip()]`: at most one equation per piece. */
  function Fragments(pieces: seq<string>): (fs: seq<string>)
    ensures |fs| <= |pieces|
  {
    Comprehension(pieces, Kept, Clean)
  }

  /**
   * Lines 98-105 of `render_pdf`: the equations of a request, or the 400
   * error that ends it.
   */
  function Decode(raw: string): (r: Result<seq<string>, HttpError>)
    ensures r.Failure? ==> r.error.status == 400
    ensures r.Success? ==> r.value != []
  {
    if Strip(raw, Whitespace) == "" then Failure(EmptyInput)
    else
      var equations := Fragments(Split(raw, Delimiter));
      if equations == [] then Failure(NoEquations) else Success(equations)
  }

  // ---------------------------------------------------------------------
  // properties
  // ---------------------------------------------------------------------

  /**
   * Every fragment is the cleaned form of a kept piece: it may be empty, but
   * it neither starts nor ends with '*', ' ' or '\n'.
   */
  lemma FragmentsTrimmed(pieces: seq<string>)
    ensures forall k :: 0 <= k < |Fragments(pieces)| ==> Trimmed(Fragments(pieces)[k])
  {
    forall k | 0 <= k < |Fragments(pieces)| ensures Trimmed(Fragments(pieces)[k]) {
      ComprehensionSource(pieces, Kept, Clean, k);
    }
  }

  /**
   * Every piece with a non-whitespace character gives a fragment, its
   * cleaned form, placed after the fragments of the pieces before it.
   */
  lemma FragmentOfPiece(pieces: seq<string>, i: nat)
    requires i < |pieces| && !AllIn(pieces[i], Whitespace)
    ensures var k := |Fragments(pieces[..i])|;
      k < |Fragments(pieces)| && Fragments(pieces)[k] == Strip(pieces[i], FragmentStripChars)
  {
    ComprehensionOfItem(pieces, Kept, Clean, i);
  }

  /**
   * Every fragment comes from a piece with a non-whitespace character, the
   * `k`-th fragment from the piece before which `k` fragments arise: the
   * fragments keep the order of the pieces.
   */
  lemma FragmentSource(pieces: seq<string>, k: nat)
    requires k < |Fragments(pieces)|
    ensures exists i ::
      && 0 <= i < |pieces| && !AllIn(pieces[i], Whitespace)
      && |Fragments(pieces[..i])| == k && Fragments(pieces)[k] == Strip(pieces[i], FragmentStripChars)
  {
    ComprehensionSource(pieces, Kept, Clean, k);
  }

  lemma NoFragmentsFromBlank(pieces: seq<string>)
    requires forall i :: 0 <= i < |pieces| ==> AllIn(pieces[i], Whitespace)
    ensures Fragments(pieces) == []
  {
    ComprehensionNone(pieces, Kept, Clean);
  }

  /** A blank raw string is rejected as empty input, and nothing else is. */
  lemma DecodeEmptyInput(raw: string)
    ensures Decode(raw) == Failure(EmptyInput) <==> AllIn(raw, Whitespace)
  {
  }

  /**
   * The decoder succeeds exactly when some fragment survives, and then yields
   * the fragments of the "**" pieces; a raw string that is not blank but
   * yields no fragment is rejected with the second 400 error.
   */
  lemma DecodeOutcome(raw: string)
    ensures var fs := Fragments(Split(raw, Delimiter));
      && (Decode(raw).Success? <==> fs != [])
      && (Decode(raw).Success? ==> Decode(raw).value == fs)
      && (Decode(raw) == Failure(NoEquations) <==> !AllIn(raw, Whitespace) && fs == [])
  {
    if AllIn(raw, Whitespace) {
      SplitAllIn(raw, Delimiter, Whitespace);
      NoFragmentsFromBlank(Split(raw, Delimiter));
    }
  }

  /** There are at most as many equations as "**" separators plus one. */
  lemma DecodeCount(raw: string)
    requires Decode(raw).Success?
    ensures |Decode(raw).value| <= Count(raw, Delimiter) + 1
  {
    SplitCount(raw, Delimiter);
  }

  /** Without a "**", a raw string that is not blank is one equation, stripped. */
  lemma DecodeSingle(raw: string)
    requires NoSep(raw, Delimiter) && !AllIn(raw, Whitespace)
    ensures Decode(raw) == Success([Strip(raw, FragmentStripChars)])
  {
    SplitNoSep(raw, Delimiter);
    ComprehensionSingle(raw, Kept, Clean);
  }

  // ---------------------------------------------------------------------
  // examples
  // ---------------------------------------------------------------------

  /** A piece of one ordinary character is kept as it is. */
  lemma PlainChar(c: char)
    requires c !in Whitespace && c !in FragmentStripChars
    ensures Kept([c]) && Clean([c]) == [c]
  {
    assert [c][0] == c;
    assert !AllIn([c], Whitespace);
    assert !AllIn([c], FragmentStripChars);
  }

  /** A lone '*' is not blank, is kept, and strips to the empty equation. */
  lemma ExampleStar()
    ensures Decode("*") == Success([""])
  {
    assert !AllIn("*", Whitespace) by { assert "*"[0] == '*'; }
    assert Split("*", Delimiter) == ["*"];
    assert AllIn("*", FragmentStripChars);
    assert Comprehension(["*"], Kept, Clean) == [""] by { assert ["*"][1..] == []; }
  }

  /** "**" alone splits into two empty pieces; nothing is kept. */
  lemma ExampleDoubleStar()
    ensures Decode("**") == Failure(NoEquations)
  {
    assert !AllIn("**", Whitespace) by { assert "**"[0] == '*'; }
    assert "**"[..2] == Delimiter && "**"[2..] == "";
    assert Split("**", Delimiter) == ["", ""];
    assert !Kept("");
    ComprehensionNone(["", ""], Kept, Clean);
  }

  /** "a***b": the separator is the first two stars; the third stays with "b". */
  lemma SplitOdd()
    ensures Split("a***b", Delimiter) == ["a", "*b"]
  {
    var ps := ["a", "*b"];
    assert NoEarlySep("a", Delimiter) by {
      assert ("a" + Delimiter)[0] == 'a';
      assert !SepAt("a" + Delimiter, 0, Delimiter);
    }
    assert NoSep("*b", Delimiter) by {
      assert "*b"[0..2][1] == 'b';
      assert !SepAt("*b", 0, Delimiter);
    }
    assert Join(ps, Delimiter) == "a***b";
    SplitJoin(ps, Delimiter);
  }

  /** A star before an ordinary character is stripped away. */
  lemma CleanStarPlain(c: char)
    requires c !in Whitespace && c !in FragmentStripChars
    ensures Kept(['*', c]) && Clean(['*', c]) == [c]
  {
    var s := ['*', c];
    assert s[1] == c;
    assert !AllIn(s, Whitespace);
    StripLeading(s, FragmentStripChars);
    assert s[1..] == [c];
    StripUntouched([c], FragmentStripChars);
  }

  /** An ordinary character, then a star and another one, give both characters. */
  lemma FragmentsPlainStar(a: char, b: char)
    requires a !in Whitespace && a !in FragmentStripChars
    requires b !in Whitespace && b !in FragmentStripChars
    ensures Fragments([[a], ['*', b]]) == [[a], [b]]
  {
    PlainChar(a);
    CleanStarPlain(b);
    ComprehensionPair([a], ['*', b], Kept, Clean);
  }

  /** ... and is then stripped away. */
  lemma ExampleOdd()
    ensures Decode("a***b") == Success(["a", "b"])
  {
    SplitOdd();
    FragmentsPlainStar('a', 'b');
    DecodeOutcome("a***b");
  }

  /** Without a "**", a tab then an ordinary character is one equation: the tab survives. */
  lemma TabThenPlain(c: char)
    requires c !in Whitespace && c !in FragmentStripChars
    ensures Decode(['\t', c]) == Success([['\t', c]])
  {
    var s := ['\t', c];
    assert s[0] == '\t' && s[1] == c;
    assert NoSep(s, Delimiter) by {
      assert !SepAt(s, 0, Delimiter);
    }
    assert !AllIn(s, Whitespace);
    StripUntouched(s, FragmentStripChars);
    DecodeSingle(s);
  }

  /** A tab is whitespace to the filter but not to the strip. */
  lemma ExampleTab()
    ensures Decode("\tx") == Success(["\tx"])
  {
    TabThenPlain('x');
  }
}
