/**
 * The Python `str` operations the renderer relies on, with CPython's
 * semantics: `split` on a separator, `join`, `count`, `strip` with and
 * without an argument, `startswith`/`endswith`, `str()` of a non-negative
 * `int`, and a filtering list comprehension.
 */
module PyStr {

  /** Every character of `s` belongs to `cs`. */
  predicate AllIn(s: string, cs: set<char>) {
    forall i :: 0 <= i < |s| ==> s[i] in cs
  }

  /** `s.startswith(prefix)` */
  predicate StartsWith(s: string, prefix: string) {
    |prefix| <= |s| && s[..|prefix|] == prefix
  }

  /** `s.endswith(suffix)` */
  predicate EndsWith(s: string, suffix: string) {
    |suffix| <= |s| && s[|s| - |suffix|..] == suffix
  }

  /**
   * The characters for which `str.isspace()` holds, i.e. those that
   * `str.strip()` without an argument removes.
   */
  const Whitespace: set<char> := {
    '\t', '\n', '\U{B}', '\U{C}', '\r', '\U{1C}', '\U{1D}', '\U{1E}', '\U{1F}', ' ',
    '\U{85}', '\U{A0}', '\U{1680}',
    '\U{2000}', '\U{2001}', '\U{2002}', '\U{2003}', '\U{2004}', '\U{2005}',
    '\U{2006}', '\U{2007}', '\U{2008}', '\U{2009}', '\U{200A}',
    '\U{2028}', '\U{2029}', '\U{202F}', '\U{205F}', '\U{3000}'
  }

  /** A suffix of a suffix is a suffix; `s` ends with `t + u` when it ends with `v + u` and `v` ends with `t`. */
  lemma EndsWithTrans(s: string, v: string, t: string, u: string)
    requires EndsWith(s, v + u) && EndsWith(v, t)
    ensures EndsWith(s, t + u)
  {
    var k := |s| - |v + u|;
    assert s[k..] == v + u;
    assert s[k + |v| - |t|..] == s[k..][|v| - |t|..];
    assert (v + u)[|v| - |t|..] == v[|v| - |t|..] + u;
  }

  lemma {:induction false} AllInAppend(a: string, b: string, cs: set<char>)
    ensures AllIn(a + b, cs) <==> AllIn(a, cs) && AllIn(b, cs)
  {
    if AllIn(a, cs) && AllIn(b, cs) {
      forall i | 0 <= i < |a + b| ensures (a + b)[i] in cs {
        if i >= |a| { assert (a + b)[i] == b[i - |a|]; }
      }
    }
    if AllIn(a + b, cs) {
      forall i | 0 <= i < |a| ensures a[i] in cs {
        assert (a + b)[i] == a[i];
      }
      forall i | 0 <= i < |b| ensures b[i] in cs {
        assert (a + b)[|a| + i] == b[i];
      }
    }
  }

  // ---------------------------------------------------------------------
  // split / join / count
  // ---------------------------------------------------------------------

  /** `sep` occurs in `s` starting at index `j`. */
  predicate SepAt(s: string, j: nat, sep: string) {
    j + |sep| <= |s| && s[j..j + |sep|] == sep
  }

  /** `sep` occurs nowhere in `p`. */
  predicate NoSep(p: string, sep: string) {
    forall j: nat :: j < |p| ==> !SepAt(p, j, sep)
  }

  /**
   * In `p + sep`, the first occurrence of `sep` is the appended one: that is
   * what a piece that is followed by a separator looks like.
   */
  predicate NoEarlySep(p: string, sep: string) {
    forall j: nat :: j < |p| ==> !SepAt(p + sep, j, sep)
  }

  /**
   * `s.split(sep)`: the pieces between the occurrences of `sep`, found from
   * left to right without overlap (so `"a***b".split("**")` is
   * `["a", "*b"]`); a string without `sep` is one piece.
   */
  function Split(s: string, sep: string): (pieces: seq<string>)
    requires |sep| > 0
    ensures |pieces| >= 1
    decreases |s|
  {
    if |s| < |sep| then [s]
    else if s[..|sep|] == sep then [""] + Split(s[|sep|..], sep)
    else
      var rest := Split(s[1..], sep);
      [[s[0]] + rest[0]] + rest[1..]
  }

  /** `sep.join(pieces)`: it starts with the first piece. */
  function Join(pieces: seq<string>, sep: string): (r: string)
    ensures pieces != [] ==> StartsWith(r, pieces[0])
  {
    if |pieces| == 0 then ""
    else if |pieces| == 1 then pieces[0]
    else
      var r := pieces[0] + sep + Join(pieces[1..], sep);
      assert r[..|pieces[0]|] == pieces[0];
      r
  }

  /** Joining pieces that are each no longer than their counterparts gives no longer a text. */
  lemma {:induction false} JoinShorter(ls: seq<string>, ms: seq<string>, sep: string)
    requires |ls| == |ms|
    requires forall k :: 0 <= k < |ls| ==> |ms[k]| <= |ls[k]|
    ensures |Join(ms, sep)| <= |Join(ls, sep)|
  {
    if |ls| > 1 {
      JoinShorter(ls[1..], ms[1..], sep);
    }
  }

  /** `s.count(sep)`: leftmost, non-overlapping occurrences of `sep`. */
  function Count(s: string, sep: string): nat
    requires |sep| > 0
    decreases |s|
  {
    if |s| < |sep| then 0
    else if s[..|sep|] == sep then 1 + Count(s[|sep|..], sep)
    else Count(s[1..], sep)
  }

  lemma JoinPrepend(x: string, ps: seq<string>, sep: string)
    requires |ps| >= 1
    ensures Join([x + ps[0]] + ps[1..], sep) == x + Join(ps, sep)
  {
    var qs := [x + ps[0]] + ps[1..];
    assert qs[1..] == ps[1..];
  }

  /** Joining two non-empty lists puts one separator between their joins. */
  lemma {:induction false} JoinAppend(a: seq<string>, b: seq<string>, sep: string)
    requires |a| >= 1 && |b| >= 1
    ensures Join(a + b, sep) == Join(a, sep) + sep + Join(b, sep)
  {
    if |a| == 1 {
      assert (a + b)[1..] == b;
    } else {
      assert (a + b)[1..] == a[1..] + b;
      JoinAppend(a[1..], b, sep);
    }
  }

  /** Round trip: joining the pieces of `s.split(sep)` with `sep` gives back `s`. */
  lemma {:induction false} JoinSplit(s: string, sep: string)
    requires |sep| > 0
    ensures Join(Split(s, sep), sep) == s
    decreases |s|
  {
    if |s| < |sep| {
    } else if s[..|sep|] == sep {
      var rest := Split(s[|sep|..], sep);
      JoinSplit(s[|sep|..], sep);
      JoinAppend([""], rest, sep);
      assert [""] + rest == Split(s, sep);
      assert s == s[..|sep|] + s[|sep|..];
    } else {
      var rest := Split(s[1..], sep);
      JoinSplit(s[1..], sep);
      JoinPrepend([s[0]], rest, sep);
      assert s == [s[0]] + s[1..];
    }
  }

  /** The number of pieces is one more than the number of separators. */
  lemma {:induction false} SplitCount(s: string, sep: string)
    requires |sep| > 0
    ensures |Split(s, sep)| == Count(s, sep) + 1
    decreases |s|
  {
    if |s| < |sep| {
    } else if s[..|sep|] == sep {
      SplitCount(s[|sep|..], sep);
    } else {
      SplitCount(s[1..], sep);
    }
  }

  lemma NoEarlySepTail(p: string, sep: string)
    requires |p| >= 1 && NoEarlySep(p, sep)
    ensures NoEarlySep(p[1..], sep)
  {
    var q := p + sep;
    assert q[1..] == p[1..] + sep;
    forall j: nat | j < |p[1..]| ensures !SepAt(p[1..] + sep, j, sep) {
      assert !SepAt(q, j + 1, sep);
      assert q[j + 1..j + 1 + |sep|] == q[1..][j..j + |sep|];
    }
  }

  lemma NoSepTail(p: string, sep: string)
    requires |p| >= 1 && NoSep(p, sep)
    ensures NoSep(p[1..], sep)
  {
    forall j: nat | j < |p[1..]| ensures !SepAt(p[1..], j, sep) {
      assert !SepAt(p, j + 1, sep);
      if j + |sep| <= |p[1..]| {
        assert p[j + 1..j + 1 + |sep|] == p[1..][j..j + |sep|];
      }
    }
  }

  /** A piece without an early separator, followed by `sep`, is split off whole. */
  lemma {:induction false} SplitAt(p: string, rest: string, sep: string)
    requires |sep| > 0 && NoEarlySep(p, sep)
    ensures Split(p + sep + rest, sep) == [p] + Split(rest, sep)
    decreases |p|
  {
    var s := p + sep + rest;
    if p == [] {
      assert s == sep + rest;
      assert s[..|sep|] == sep;
      assert s[|sep|..] == rest;
    } else {
      assert !SepAt(p + sep, 0, sep);
      assert (p + sep)[0..|sep|] == s[..|sep|];
      NoEarlySepTail(p, sep);
      SplitAt(p[1..], rest, sep);
      assert s[1..] == p[1..] + sep + rest;
      assert [p[0]] + p[1..] == p;
    }
  }

  /** A string without the separator is a single piece. */
  lemma {:induction false} SplitNoSep(p: string, sep: string)
    requires |sep| > 0 && NoSep(p, sep)
    ensures Split(p, sep) == [p]
    decreases |p|
  {
    if |p| >= |sep| {
      assert !SepAt(p, 0, sep);
      NoSepTail(p, sep);
      SplitNoSep(p[1..], sep);
      assert [p[0]] + p[1..] == p;
    }
  }

  lemma NoEarlySepCons(x: char, q: string, sep: string)
    requires NoEarlySep(q, sep) && !SepAt([x] + q + sep, 0, sep)
    ensures NoEarlySep([x] + q, sep)
  {
    var p := [x] + q;
    forall j: nat | 0 < j < |p| ensures !SepAt(p + sep, j, sep) {
      assert !SepAt(q + sep, j - 1, sep);
      assert p + sep == [x] + (q + sep);
      if j + |sep| <= |p + sep| {
        assert (p + sep)[j..j + |sep|] == (q + sep)[j - 1..j - 1 + |sep|];
      }
    }
  }

  lemma NoSepCons(x: char, q: string, sep: string)
    requires NoSep(q, sep) && !SepAt([x] + q, 0, sep)
    ensures NoSep([x] + q, sep)
  {
    var p := [x] + q;
    forall j: nat | 0 < j < |p| ensures !SepAt(p, j, sep) {
      assert !SepAt(q, j - 1, sep);
      if j + |sep| <= |p| {
        assert p[1..] == q;
        assert p[j..j + |sep|] == p[1..][j - 1..j - 1 + |sep|];
      }
    }
  }

  /**
   * The shape of the pieces of `s.split(sep)`: there is at least one, every
   * piece but the last meets the separator first at the one that follows it,
   * and the last has none.
   */
  predicate SplitShape(ps: seq<string>, sep: string) {
    && |ps| >= 1
    && (forall i :: 0 <= i < |ps| - 1 ==> NoEarlySep(ps[i], sep))
    && NoSep(ps[|ps| - 1], sep)
  }

  lemma ShapeCons(p: string, ps: seq<string>, sep: string)
    requires NoEarlySep(p, sep) && SplitShape(ps, sep)
    ensures SplitShape([p] + ps, sep)
  {
    var qs := [p] + ps;
    forall i | 0 <= i < |qs| - 1 ensures NoEarlySep(qs[i], sep) {
      if i > 0 { assert qs[i] == ps[i - 1]; }
    }
    assert qs[|qs| - 1] == ps[|ps| - 1];
  }

  lemma ShapeTail(ps: seq<string>, sep: string)
    requires SplitShape(ps, sep) && |ps| > 1
    ensures SplitShape(ps[1..], sep)
  {
    assert forall i :: 0 <= i < |ps| - 2 ==> ps[1..][i] == ps[i + 1];
  }

  /** The pieces `split` returns have that shape: `split` matches leftmost first. */
  lemma {:induction false} SplitPieces(s: string, sep: string)
    requires |sep| > 0
    ensures SplitShape(Split(s, sep), sep)
    decreases |s|
  {
    var ps := Split(s, sep);
    if |s| < |sep| {
      assert NoSep(s, sep) by {
        forall j: nat | j < |s| ensures !SepAt(s, j, sep) { }
      }
    } else if s[..|sep|] == sep {
      SplitPieces(s[|sep|..], sep);
      assert NoEarlySep("", sep);
      ShapeCons("", Split(s[|sep|..], sep), sep);
    } else {
      SplitPieces(s[1..], sep);
      SplitShapeCons(s, sep);
    }
  }

  lemma ConsConcat(s: string, q: string, sep: string, t: string)
    requires |s| > 0 && s[1..] == q + sep + t
    ensures s == [s[0]] + q + sep + t
  {
    assert s == [s[0]] + s[1..];
  }

  lemma PrefixOfConcat(a: string, b: string, n: nat)
    requires n <= |a|
    ensures (a + b)[..n] == a[..n]
  {
  }

  /** A first character that does not start a separator joins the first piece of the rest. */
  lemma SplitShapeCons(s: string, sep: string)
    requires |sep| > 0 && |s| >= |sep| && s[..|sep|] != sep
    requires SplitShape(Split(s[1..], sep), sep)
    ensures SplitShape(Split(s, sep), sep)
  {
    var rest := Split(s[1..], sep);
    JoinSplit(s[1..], sep);
    assert Split(s, sep) == [[s[0]] + rest[0]] + rest[1..];
    if |rest| > 1 {
      FirstPieceCons(s, sep, rest);
    } else {
      assert rest[0] == s[1..];
      NoSepCons(s[0], rest[0], sep);
    }
  }

  /** When more pieces follow, the first piece with `s[0]` in front still meets the separator first after it. */
  lemma FirstPieceCons(s: string, sep: string, rest: seq<string>)
    requires |sep| > 0 && |s| >= |sep| && s[..|sep|] != sep
    requires SplitShape(rest, sep) && |rest| > 1 && Join(rest, sep) == s[1..]
    ensures SplitShape([[s[0]] + rest[0]] + rest[1..], sep)
  {
    // `[s[0]] + rest[0] + sep` is a prefix of `s`
    var p, t := [s[0]] + rest[0], Join(rest[1..], sep);
    assert Join(rest, sep) == rest[0] + sep + t;
    ConsConcat(s, rest[0], sep, t);
    PrefixOfConcat(p + sep, t, |sep|);
    assert !SepAt(p + sep, 0, sep);
    NoEarlySepCons(s[0], rest[0], sep);
    ShapeTail(rest, sep);
    ShapeCons(p, rest[1..], sep);
  }

  /**
   * `split` is the only way to cut a string at separators such that every
   * piece but the last has no separator before the next one and the last
   * has none: splitting such a join gives back the very pieces.
   */
  lemma {:induction false} SplitJoin(ps: seq<string>, sep: string)
    requires |sep| > 0 && SplitShape(ps, sep)
    ensures Split(Join(ps, sep), sep) == ps
  {
    if |ps| == 1 {
      SplitNoSep(ps[0], sep);
    } else {
      ShapeTail(ps, sep);
      SplitJoin(ps[1..], sep);
      SplitAt(ps[0], Join(ps[1..], sep), sep);
      assert [ps[0]] + ps[1..] == ps;
    }
  }

  /** With a one-character separator, a piece qualifies exactly when it lacks that character. */
  lemma CharSepFree(p: string, c: char)
    requires c !in p
    ensures NoSep(p, [c]) && NoEarlySep(p, [c])
  {
    forall j: nat | j < |p| ensures !SepAt(p, j, [c]) && !SepAt(p + [c], j, [c]) {
      assert p[j] != c;
      assert (p + [c])[j] == p[j];
    }
  }

  lemma CharSepPieces(s: string, c: char)
    ensures forall i :: 0 <= i < |Split(s, [c])| ==> c !in Split(s, [c])[i]
  {
    var ps := Split(s, [c]);
    SplitPieces(s, [c]);
    forall i, j | 0 <= i < |ps| && 0 <= j < |ps[i]| ensures ps[i][j] != c {
      if i < |ps| - 1 {
        assert !SepAt(ps[i] + [c], j, [c]);
        assert (ps[i] + [c])[j..j + 1] == [ps[i][j]];
      } else {
        assert !SepAt(ps[i], j, [c]);
        assert ps[i][j..j + 1] == [ps[i][j]];
      }
    }
  }

  /** With a one-character separator, splitting `a + c + b` splits `a` and `b` separately. */
  lemma SplitCharAppend(a: string, b: string, c: char)
    ensures Split(a + [c] + b, [c]) == Split(a, [c]) + Split(b, [c])
  {
    var pa, pb := Split(a, [c]), Split(b, [c]);
    var ps := pa + pb;
    CharSepPieces(a, c);
    CharSepPieces(b, c);
    forall i | 0 <= i < |ps| ensures NoSep(ps[i], [c]) && NoEarlySep(ps[i], [c]) {
      if i < |pa| { CharSepFree(pa[i], c); } else { CharSepFree(pb[i - |pa|], c); }
    }
    JoinAppend(pa, pb, [c]);
    JoinSplit(a, [c]);
    JoinSplit(b, [c]);
    SplitJoin(ps, [c]);
  }

  /** Every piece of a string made of characters from `cs` is made of them too. */
  lemma {:induction false} SplitAllIn(s: string, sep: string, cs: set<char>)
    requires |sep| > 0 && AllIn(s, cs)
    ensures forall i :: 0 <= i < |Split(s, sep)| ==> AllIn(Split(s, sep)[i], cs)
    decreases |s|
  {
    if |s| < |sep| {
    } else if s[..|sep|] == sep {
      AllInAppend(s[..|sep|], s[|sep|..], cs);
      assert s == s[..|sep|] + s[|sep|..];
      SplitAllIn(s[|sep|..], sep, cs);
    } else {
      AllInAppend([s[0]], s[1..], cs);
      assert s == [s[0]] + s[1..];
      SplitAllIn(s[1..], sep, cs);
      var rest := Split(s[1..], sep);
      AllInAppend([s[0]], rest[0], cs);
    }
  }

  // ---------------------------------------------------------------------
  // strip
  // ---------------------------------------------------------------------

  /** `s.lstrip(chars)`: the longest suffix of `s` that does not start with one of `chars`. */
  function LStrip(s: string, chars: set<char>): (r: string)
    ensures |r| <= |s| && r == s[|s| - |r|..]
    ensures AllIn(s[..|s| - |r|], chars)
    ensures r == "" || r[0] !in chars
  {
    if s != "" && s[0] in chars then
      var r := LStrip(s[1..], chars);
      assert s[..|s| - |r|] == [s[0]] + s[1..][..|s[1..]| - |r|];
      r
    else s
  }

  /** `s.rstrip(chars)`: the longest prefix of `s` that does not end with one of `chars`. */
  function RStrip(s: string, chars: set<char>): (r: string)
    ensures |r| <= |s| && r == s[..|r|]
    ensures AllIn(s[|r|..], chars)
    ensures r == "" || r[|r| - 1] !in chars
  {
    if s != "" && s[|s| - 1] in chars then
      var r := RStrip(s[..|s| - 1], chars);
      assert s[|r|..] == s[..|s| - 1][|r|..] + [s[|s| - 1]];
      r
    else s
  }

  /**
   * `s.strip(chars)`: `s` without its leading and trailing characters from
   * `chars`. The result is the contiguous middle of `s`, it is empty exactly
   * when every character of `s` is in `chars`, and otherwise it neither
   * starts nor ends with one of them.
   */
  function Strip(s: string, chars: set<char>): (r: string)
    ensures |r| <= |LStrip(s, chars)| && r == LStrip(s, chars)[..|r|]
    ensures AllIn(LStrip(s, chars)[|r|..], chars)
    ensures r == "" <==> AllIn(s, chars)
    ensures r != "" ==> r[0] !in chars && r[|r| - 1] !in chars
  {
    var l := LStrip(s, chars);
    var r := RStrip(l, chars);
    StripFacts(s, |s| - |l|, l, r, chars);
    r
  }

  /** What `Strip` promises, from what `LStrip` and `RStrip` promise. */
  lemma StripFacts(s: string, k: nat, l: string, r: string, chars: set<char>)
    requires k <= |s| && l == s[k..] && AllIn(s[..k], chars) && (l == "" || l[0] !in chars)
    requires |r| <= |l| && r == l[..|r|] && AllIn(l[|r|..], chars) && (r == "" || r[|r| - 1] !in chars)
    ensures r == "" <==> AllIn(s, chars)
    ensures r != "" ==> r[0] !in chars && r[|r| - 1] !in chars
  {
    StripEnds(l, r, chars);
    Reassemble(s, k, l, r);
    StripEmpty(s[..k], r, l[|r|..], chars);
  }

  lemma StripEnds(l: string, r: string, chars: set<char>)
    requires |r| <= |l| && r == l[..|r|]
    requires l == "" || l[0] !in chars
    requires r == "" || r[|r| - 1] !in chars
    ensures r != "" ==> r[0] !in chars && r[|r| - 1] !in chars
  {
    if r != "" { assert r[0] == l[0]; }
  }

  lemma Reassemble(s: string, k: nat, l: string, r: string)
    requires k <= |s| && l == s[k..] && |r| <= |l| && r == l[..|r|]
    ensures s == s[..k] + r + l[|r|..]
  {
    assert l == r + l[|r|..];
    assert s == s[..k] + s[k..];
  }

  lemma StripEmpty(pre: string, r: string, post: string, chars: set<char>)
    requires AllIn(pre, chars) && AllIn(post, chars)
    requires r == "" || (r[0] !in chars && r[|r| - 1] !in chars)
    ensures r == "" <==> AllIn(pre + r + post, chars)
  {
    AllInAppend(pre, r, chars);
    AllInAppend(pre + r, post, chars);
    if r != "" {
      assert !AllIn(r, chars);
    }
  }

  /** A string whose two end characters are outside `chars` is its own strip. */
  lemma StripUntouched(s: string, chars: set<char>)
    requires s != "" && s[0] !in chars && s[|s| - 1] !in chars
    ensures Strip(s, chars) == s
  {
    assert LStrip(s, chars) == s;
    assert RStrip(s, chars) == s;
  }

  /** A leading character from `chars` is dropped by the strip. */
  lemma StripLeading(s: string, chars: set<char>)
    requires s != "" && s[0] in chars
    ensures Strip(s, chars) == Strip(s[1..], chars)
  {
    assert LStrip(s, chars) == LStrip(s[1..], chars);
  }

  // ---------------------------------------------------------------------
  // str() of a non-negative int
  // ---------------------------------------------------------------------

  const Digits: set<char> := {'0', '1', '2', '3', '4', '5', '6', '7', '8', '9'}

  /** The digit character for `d`. */
  function DigitChar(d: nat): (c: char)
    requires d < 10
    ensures c in Digits && c as int - '0' as int == d
  {
    ('0' as int + d) as char
  }

  /** The number a string of decimal digits denotes. */
  function DecimalValue(s: string): nat
    requires AllIn(s, Digits)
  {
    if s == "" then 0
    else DecimalValue(s[..|s| - 1]) * 10 + (s[|s| - 1] as int - '0' as int)
  }

  /** `str(n)`: decimal digits, most significant first, no leading zero. */
  function NatToString(n: nat): (s: string)
    ensures s != "" && AllIn(s, Digits)
    ensures s[0] == '0' ==> s == "0"
  {
    if n < 10 then [DigitChar(n)]
    else
      var s := NatToString(n / 10) + [DigitChar(n % 10)];
      assert s[..|s| - 1] == NatToString(n / 10);
      s
  }

  /** Reading the digits of `str(n)` back gives `n`. */
  lemma {:induction false} NatToStringRoundTrip(n: nat)
    ensures DecimalValue(NatToString(n)) == n
  {
    if n >= 10 {
      NatToStringRoundTrip(n / 10);
      var s := NatToString(n);
      assert s[..|s| - 1] == NatToString(n / 10);
    }
  }

  // ---------------------------------------------------------------------
  // [f(x) for x in xs if keep(x)]
  // ---------------------------------------------------------------------

  /** `[f(x) for x in xs if keep(x)]` */
  function Comprehension<T, U>(xs: seq<T>, keep: T -> bool, f: T -> U): (ys: seq<U>)
    ensures |ys| <= |xs|
  {
    if xs == [] then []
    else (if keep(xs[0]) then [f(xs[0])] else []) + Comprehension(xs[1..], keep, f)
  }

  /** The comprehension over consecutive runs of items is consecutive. */
  lemma {:induction false} ComprehensionAppend<T, U>(a: seq<T>, b: seq<T>, keep: T -> bool, f: T -> U)
    ensures Comprehension(a + b, keep, f) == Comprehension(a, keep, f) + Comprehension(b, keep, f)
  {
    if a == [] {
      assert a + b == b;
    } else {
      var head := if keep(a[0]) then [f(a[0])] else [];
      assert (a + b)[0] == a[0] && (a + b)[1..] == a[1..] + b;
      ComprehensionAppend(a[1..], b, keep, f);
      calc {
        Comprehension(a + b, keep, f);
        head + Comprehension(a[1..] + b, keep, f);
        head + (Comprehension(a[1..], keep, f) + Comprehension(b, keep, f));
        (head + Comprehension(a[1..], keep, f)) + Comprehension(b, keep, f);
      }
    }
  }

  /**
   * Every kept item yields an element, placed right after the elements of
   * the items before it.
   */
  lemma ComprehensionOfItem<T, U>(xs: seq<T>, keep: T -> bool, f: T -> U, i: nat)
    requires i < |xs| && keep(xs[i])
    ensures var k := |Comprehension(xs[..i], keep, f)|;
      k < |Comprehension(xs, keep, f)| && Comprehension(xs, keep, f)[k] == f(xs[i])
  {
    var rest := [xs[i]] + xs[i + 1..];
    assert xs == xs[..i] + rest;
    ComprehensionAppend(xs[..i], rest, keep, f);
    assert rest[1..] == xs[i + 1..];
  }

  /**
   * Every element comes from a kept item, and the k-th element from the item
   * before which exactly k elements arise: the order of the items is kept.
   */
  lemma {:induction false} ComprehensionSource<T, U>(xs: seq<T>, keep: T -> bool, f: T -> U, k: nat)
    requires k < |Comprehension(xs, keep, f)|
    ensures exists i ::
      && 0 <= i < |xs| && keep(xs[i])
      && |Comprehension(xs[..i], keep, f)| == k && Comprehension(xs, keep, f)[k] == f(xs[i])
  {
    var tail := xs[1..];
    var n := if keep(xs[0]) then 1 else 0;
    if keep(xs[0]) && k == 0 {
      assert xs[..0] == [];
      assert 0 <= 0 < |xs| && keep(xs[0])
        && |Comprehension(xs[..0], keep, f)| == k && Comprehension(xs, keep, f)[k] == f(xs[0]);
    } else {
      ComprehensionSource(tail, keep, f, k - n);
      var j :| 0 <= j < |tail| && keep(tail[j])
        && |Comprehension(tail[..j], keep, f)| == k - n && Comprehension(tail, keep, f)[k - n] == f(tail[j]);
      SourceStep(xs, keep, f, k, j);
      assert 0 <= j + 1 < |xs| && keep(xs[j + 1])
        && |Comprehension(xs[..j + 1], keep, f)| == k && Comprehension(xs, keep, f)[k] == f(xs[j + 1]);
    }
  }

  /** An element the tail gets from its item `j` is an element of the whole, from item `j + 1`. */
  lemma SourceStep<T, U>(xs: seq<T>, keep: T -> bool, f: T -> U, k: nat, j: nat)
    requires |xs| > 0 && (keep(xs[0]) ==> k > 0)
    requires var n := if keep(xs[0]) then 1 else 0;
      && j < |xs| - 1 && keep(xs[1..][j]) && k - n < |Comprehension(xs[1..], keep, f)|
      && |Comprehension(xs[1..][..j], keep, f)| == k - n
      && Comprehension(xs[1..], keep, f)[k - n] == f(xs[1..][j])
    ensures keep(xs[j + 1]) && |Comprehension(xs[..j + 1], keep, f)| == k
    ensures k < |Comprehension(xs, keep, f)| && Comprehension(xs, keep, f)[k] == f(xs[j + 1])
  {
    var tail := xs[1..];
    assert xs[j + 1] == tail[j];
    assert xs[..j + 1] == [xs[0]] + tail[..j];
    ComprehensionAppend([xs[0]], tail[..j], keep, f);
    assert [xs[0]][1..] == [];
  }

  /** Nothing is kept from items that all fail the filter. */
  lemma {:induction false} ComprehensionNone<T, U>(xs: seq<T>, keep: T -> bool, f: T -> U)
    requires forall i :: 0 <= i < |xs| ==> !keep(xs[i])
    ensures Comprehension(xs, keep, f) == []
  {
    if xs != [] {
      ComprehensionNone(xs[1..], keep, f);
    }
  }

  /** When every item passes the filter, the comprehension is a plain map. */
  lemma {:induction false} ComprehensionAll<T, U>(xs: seq<T>, keep: T -> bool, f: T -> U)
    requires forall i :: 0 <= i < |xs| ==> keep(xs[i])
    ensures |Comprehension(xs, keep, f)| == |xs|
    ensures forall i :: 0 <= i < |xs| ==> Comprehension(xs, keep, f)[i] == f(xs[i])
  {
    if xs != [] {
      ComprehensionAll(xs[1..], keep, f);
    }
  }

  /** One item that passes the filter. */
  lemma ComprehensionSingle<T, U>(a: T, keep: T -> bool, f: T -> U)
    requires keep(a)
    ensures Comprehension([a], keep, f) == [f(a)]
  {
    ComprehensionAll([a], keep, f);
  }

  /** Two items that both pass the filter. */
  lemma ComprehensionPair<T, U>(a: T, b: T, keep: T -> bool, f: T -> U)
    requires keep(a) && keep(b)
    ensures Comprehension([a, b], keep, f) == [f(a), f(b)]
  {
    ComprehensionAll([a, b], keep, f);
  }
}
