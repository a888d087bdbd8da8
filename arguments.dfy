/**
 * prepareArguments(): trim the buffer, validate it, and split it into the
 * argument vector handed to execvp.
 */
module ArgumentParsing {
  import opened CType
  import opened Wrappers
  import opened Strings
  import opened Trimming

  /**
   * isBufferValid() on the C string: not empty, and not starting with
   * whitespace or '&'. Put otherwise, the argument loop starts inside a word:
   * no whitespace comes before the first cell and no '&' stops it there.
   */
  predicate ValidLine(t: seq<char>): (ok: bool)
    ensures ok <==> FirstNonSpace(t) == 0 < AmpIndex(t)
  {
    t != [] && !IsSpace(t[0]) && t[0] != PIPE_BACKGROUND
  }

  /** Index of the first '&', or |t|: where the argument loop breaks. */
  function AmpIndex(t: seq<char>): (k: nat)
    ensures k <= |t|
    ensures forall i :: 0 <= i < k ==> t[i] != PIPE_BACKGROUND
    ensures k < |t| ==> t[k] == PIPE_BACKGROUND
  {
    if t == [] || t[0] == PIPE_BACKGROUND then 0 else 1 + AmpIndex(t[1..])
  }

  /**
   * The argument vector the loop of prepareArguments builds from the trimmed
   * string t: each whitespace character closes the current field; only graphic
   * characters enter an argument; the loop stops at the first '&'. The last
   * field is dropped when the loop stopped at '&', or when the last character
   * that counted was whitespace.
   */
  function ArgvOf(t: seq<char>): (argv: seq<seq<char>>)
    ensures |argv| <= |Fields(t[..AmpIndex(t)])|
  {
    var k := AmpIndex(t);
    var f := Fields(t[..k]);
    var closed := GraphicAll(f[..|f| - 1]);
    var last := Graphic(f[|f| - 1]);
    if k < |t| || (|f| > 1 && last == []) then closed else closed + [last]
  }

  /** What prepareArguments returns for the buffer s: None for NULL. */
  function Arguments(s: seq<char>): (r: Option<seq<seq<char>>>)
    ensures r.Some? ==> forall i, j :: 0 <= i < |r.value| && 0 <= j < |r.value[i]| ==> IsGraph(r.value[i][j])
  {
    var t := Trimmed(Line(s));
    if ValidLine(t) then ArgvGraphic(t); Some(ArgvOf(t)) else None
  }

  // ---------------------------------------------------------------------
  // Properties

  /**
   * prepareArguments returns NULL exactly when the line is all whitespace or
   * its first non-whitespace character is '&'. (After trim() the buffer never
   * starts with whitespace, so that test of isBufferValid never fires.)
   */
  lemma RejectedExactly(s: seq<char>)
    ensures var l := Line(s);
      Arguments(s) == None <==> FirstNonSpace(l) == |l| || l[FirstNonSpace(l)] == PIPE_BACKGROUND
  {
    TrimmedHead(Line(s));
  }

  /** Every argument is made of graphic characters only. */
  lemma ArgvGraphic(t: seq<char>)
    ensures var argv := ArgvOf(t);
      forall i, j :: 0 <= i < |argv| && 0 <= j < |argv[i]| ==> IsGraph(argv[i][j])
  {
    var f := Fields(t[..AmpIndex(t)]);
    var closed := GraphicAll(f[..|f| - 1]);
    GraphicAllAt(f[..|f| - 1]);
    var argv := ArgvOf(t);
    forall i, j | 0 <= i < |argv| && 0 <= j < |argv[i]| ensures IsGraph(argv[i][j]) {
      if i < |closed| {
        assert argv[i] == Graphic(f[..|f| - 1][i]);
      } else {
        assert argv[i] == Graphic(f[|f| - 1]);
      }
    }
  }

  /** The isgraph filter drops every character of a word that has no graphic character. */
  lemma {:induction false} GraphicNone(x: seq<char>)
    requires forall i :: 0 <= i < |x| ==> !IsGraph(x[i])
    ensures Graphic(x) == []
  {
    if x != [] {
      GraphicNone(x[..|x| - 1]);
    }
  }

  /**
   * A word with no graphic character (control characters, say). On its own it
   * still ends an argument, which is empty. As the last word after a blank it
   * gives no argument at all, because the blank set isLastSpace and skipping
   * the word's characters never clears it.
   */
  lemma NonGraphicWord(w: seq<char>, x: seq<char>)
    requires w != [] && forall i :: 0 <= i < |w| ==> IsGraph(w[i]) && w[i] != PIPE_BACKGROUND
    requires x != [] && forall i :: 0 <= i < |x| ==> !IsGraph(x[i]) && !IsSpace(x[i])
    ensures ArgvOf(x) == [[]]
    ensures ArgvOf(w + [' '] + x) == [w]
  {
    GraphicNone(x);
    FieldsOfWord(x);
    assert AmpIndex(x) == |x|;
    assert x[..|x|] == x;
    var t := w + [' '] + x;
    assert AmpIndex(t) == |t|;
    assert t[..|t|] == t;
    FieldsOfWord(w);
    FieldsSplit(w, ' ', x);
    var f := Fields(t);
    assert f == [w, x];
    assert f[..|f| - 1] == [w];
    GraphicOfGraph(w);
    assert GraphicAll([w]) == GraphicAll([]) + [Graphic(w)] by {
      assert [w][..0] == [];
    }
  }

  lemma GraphicAllOfGraph(f: seq<seq<char>>)
    requires forall i, j :: 0 <= i < |f| && 0 <= j < |f[i]| ==> IsGraph(f[i][j])
    ensures GraphicAll(f) == f
  {
    GraphicAllAt(f);
    forall i | 0 <= i < |f| ensures Graphic(f[i]) == f[i] { GraphicOfGraph(f[i]); }
  }

  /** On a clean line, keeping only graphic characters changes no field. */
  lemma GraphicFields(p: seq<char>)
    requires Clean(p)
    ensures var f := Fields(p);
      && GraphicAll(f) == f
      && GraphicAll(f[..|f| - 1]) == f[..|f| - 1]
      && Graphic(f[|f| - 1]) == f[|f| - 1]
  {
    var f := Fields(p);
    FieldsChars(p);
    GraphicAllOfGraph(f);
    GraphicAllOfGraph(f[..|f| - 1]);
    GraphicOfGraph(f[|f| - 1]);
  }

  /**
   * For a string in the shape trim() produces, with no '&' and only graphic or
   * whitespace characters, the arguments are its words.
   */
  lemma ArgvNoAmp(t: seq<char>)
    requires t != [] && Shaped(t) && Clean(t) && AmpIndex(t) == |t|
    ensures ArgvOf(t) == Words(t)
  {
    var f := Fields(t);
    assert t[..AmpIndex(t)] == t;
    GraphicFields(t);
    ShapedFields(t);
    FirstField(t);
    LastFieldEmpty(t);
  }

  /**
   * For a string in the shape trim() produces, whose characters before the
   * first '&' are graphic or whitespace, the arguments are the fields before
   * the '&' but the last, and none of them is empty.
   */
  lemma ArgvAmp(t: seq<char>)
    requires Shaped(t) && AmpIndex(t) < |t| && Clean(t[..AmpIndex(t)])
    ensures var f := Fields(t[..AmpIndex(t)]);
      ArgvOf(t) == f[..|f| - 1] && forall i :: 0 <= i < |ArgvOf(t)| ==> ArgvOf(t)[i] != []
  {
    var p := t[..AmpIndex(t)];
    ShapedPrefix(t, AmpIndex(t));
    var f := Fields(p);
    GraphicFields(p);
    assert ArgvOf(t) == f[..|f| - 1];
    ShapedFields(p);
    assert forall i :: 0 <= i < |f| - 1 ==> f[..|f| - 1][i] == f[i];
  }

  /**
   * A line whose characters are graphic or whitespace and that has no '&'
   * yields exactly its whitespace-delimited words, none of them empty; no
   * words, no argument vector.
   */
  lemma CleanArguments(s: seq<char>)
    requires Clean(Line(s)) && PIPE_BACKGROUND !in Line(s)
    ensures Arguments(s) == if Words(Line(s)) == [] then None else Some(Words(Line(s)))
  {
    var l := Line(s);
    var t := Trimmed(l);
    TrimWords(l);
    TrimmedMember(l, PIPE_BACKGROUND);
    TrimmedClean(l);
    NoWords(l);
    TrimmedHead(l);
    if t != [] {
      TrimmedIsShaped(l);
      ArgvNoAmp(t);
    }
  }

  /** trim() leaves the first '&' right after the trimmed text that precedes it. */
  lemma TrimmedAtAmp(l: seq<char>)
    requires AmpIndex(l) < |l|
    ensures var tp := Trimmed(l[..AmpIndex(l)]);
      AmpIndex(Trimmed(l)) == |tp| < |Trimmed(l)| && Trimmed(l)[..|tp|] == tp
  {
    var k := AmpIndex(l);
    var p := l[..k];
    var tp := Trimmed(p);
    var t := Trimmed(l);
    assert l == (p + [PIPE_BACKGROUND]) + l[k + 1..];
    TrimmedSnoc(p, PIPE_BACKGROUND);
    TrimmedPrefix(p + [PIPE_BACKGROUND], l[k + 1..]);
    assert t[..|tp| + 1] == tp + [PIPE_BACKGROUND];
    TrimmedMember(p, PIPE_BACKGROUND);
    AmpIndexAfter(t, tp);
  }

  lemma AmpIndexAfter(t: seq<char>, y: seq<char>)
    requires |y| < |t| && t[..|y| + 1] == y + [PIPE_BACKGROUND] && PIPE_BACKGROUND !in y
    ensures AmpIndex(t) == |y| && t[..|y|] == y
  {
    assert forall i :: 0 <= i <= |y| ==> t[i] == (y + [PIPE_BACKGROUND])[i];
    assert t[..|y|] == y;
    assert forall i :: 0 <= i < |y| ==> t[i] == y[i] && y[i] != PIPE_BACKGROUND;
    assert t[|y|] == PIPE_BACKGROUND;
    assert AmpIndex(t) <= |y|;
  }

  /**
   * The '&' case: for a line whose part p before the first '&' is graphic or
   * whitespace, the arguments are the words of p, except that a word glued
   * directly to the '&' is dropped; a line whose p has no words yields NULL.
   */
  lemma BackgroundArguments(s: seq<char>)
    requires AmpIndex(Line(s)) < |Line(s)|
    requires Clean(Line(s)[..AmpIndex(Line(s))])
    ensures var l := Line(s);
      var k := AmpIndex(l);
      var w := Words(l[..k]);
      var glued := k > 0 && !IsSpace(l[k - 1]);
      Arguments(s) == if w == [] then None else Some(if glued then w[..|w| - 1] else w)
  {
    var l := Line(s);
    var k := AmpIndex(l);
    var p := l[..k];
    var tp := Trimmed(p);
    var t := Trimmed(l);
    TrimmedAtAmp(l);
    TrimmedHead(p);
    NoWords(p);
    if tp != [] {
      assert t[0] == tp[0];
      assert t[..AmpIndex(t)] == tp;
      TrimmedClean(p);
      TrimmedIsShaped(l);
      ArgvAmp(t);
      BackgroundWords(p);
    }
  }

  /** The words of p against the fields of trim(p): the last field is a word exactly when it is glued. */
  lemma BackgroundWords(p: seq<char>)
    requires Trimmed(p) != []
    ensures var f := Fields(Trimmed(p));
      var w := Words(p);
      f[..|f| - 1] == if |p| > 0 && !IsSpace(p[|p| - 1]) then w[..|w| - 1] else w
  {
    var tp := Trimmed(p);
    TrimWords(p);
    LastFieldEmpty(p);
    TrimmedIsShaped(p);
    ShapedFields(tp);
  }

  // ---------------------------------------------------------------------
  // The argument loop, one character at a time

  /**
   * The state of prepareArguments' loop after it has scanned t[..k]: the
   * arguments closed so far, the one being built, and whether the last
   * character that counted was whitespace.
   */
  ghost predicate Scanned(t: seq<char>, k: nat, args: seq<seq<char>>, argument: seq<char>, isLastSpace: bool)
    requires k <= |t|
  {
    var f := Fields(t[..k]);
    && args == GraphicAll(f[..|f| - 1])
    && argument == Graphic(f[|f| - 1])
    && isLastSpace == (|f| > 1 && argument == [])
  }

  /** A character before the first '&' that is not '&' itself is not where the scan stops. */
  lemma AmpIndexPast(t: seq<char>, i: nat)
    requires i <= AmpIndex(t) && i < |t| && t[i] != PIPE_BACKGROUND
    ensures i + 1 <= AmpIndex(t)
  {
  }

  lemma ScanStart(t: seq<char>)
    ensures Scanned(t, 0, [], [], false)
  {
    assert t[..0] == [];
  }

  /** Whitespace closes the argument being built. */
  lemma ScanSpace(t: seq<char>, k: nat, args: seq<seq<char>>, argument: seq<char>, isLastSpace: bool)
    requires k < |t| && IsSpace(t[k]) && Scanned(t, k, args, argument, isLastSpace)
    ensures Scanned(t, k + 1, args + [argument], [], true)
  {
    assert t[..k + 1] == t[..k] + [t[k]];
    StepSpace(t[..k], t[k]);
  }

  /** A graphic character extends the argument; any other character is skipped. */
  lemma ScanOther(t: seq<char>, k: nat, args: seq<seq<char>>, argument: seq<char>, isLastSpace: bool)
    requires k < |t| && !IsSpace(t[k]) && Scanned(t, k, args, argument, isLastSpace)
    ensures IsGraph(t[k]) ==> Scanned(t, k + 1, args, argument + [t[k]], false)
    ensures !IsGraph(t[k]) ==> Scanned(t, k + 1, args, argument, isLastSpace)
  {
    assert t[..k + 1] == t[..k] + [t[k]];
    StepChar(t[..k], t[k]);
  }

  /**
   * Where the loop stops, at the first '&' or past the end, the vector it
   * returns is the one ArgvOf describes.
   */
  lemma ScanDone(t: seq<char>, k: nat, args: seq<seq<char>>, argument: seq<char>, isLastSpace: bool)
    requires k == AmpIndex(t) && Scanned(t, k, args, argument, isLastSpace)
    ensures ArgvOf(t) == if !isLastSpace && k == |t| then args + [argument] else args
  {
  }

  // One step of the argument loop, on the fields scanned so far.

  /** A whitespace character closes the current argument and opens an empty one. */
  lemma StepSpace(p: seq<char>, c: char)
    requires IsSpace(c)
    ensures var f, g := Fields(p), Fields(p + [c]);
      && GraphicAll(g[..|g| - 1]) == GraphicAll(f[..|f| - 1]) + [Graphic(f[|f| - 1])]
      && g[|g| - 1] == [] && |g| > 1
  {
    FieldsSnoc(p, c);
    var f, g := Fields(p), Fields(p + [c]);
    var e: seq<char> := [];
    assert g == f + [e];
    assert g[..|g| - 1] == f;
    GraphicAllSnoc(f);
  }

  /** Any other character extends the current field; only a graphic one extends the argument. */
  lemma StepChar(p: seq<char>, c: char)
    requires !IsSpace(c)
    ensures var f, g := Fields(p), Fields(p + [c]);
      && g[..|g| - 1] == f[..|f| - 1] && |g| == |f|
      && Graphic(g[|g| - 1]) == Graphic(f[|f| - 1]) + (if IsGraph(c) then [c] else [])
  {
    FieldsSnoc(p, c);
    var f := Fields(p);
    var w := f[|f| - 1];
    assert (w + [c])[..|w|] == w;
  }
}
