/**
 * Whole lines and what one round of the executor does with them, for every
 * choice of the words in them: a plain command, both redirections, a
 * background job, a word glued to '&', blank and empty lines. Every buffer
 * is the line followed by NUL up to the 513 cells the reader clears.
 */
module Scenarios {
  import opened CType
  import opened Wrappers
  import opened Strings
  import opened Trimming
  import opened Redirect
  import opened ArgumentParsing
  import opened Command

  /** A character of a plain word: graphic, and none of '<', '>' and '&'. */
  predicate IsWordChar(c: char) {
    IsGraph(c) && c != PIPE_INPUT && c != PIPE_OUTPUT && c != PIPE_BACKGROUND
  }

  /** A word of a command line. */
  predicate IsWord(w: seq<char>) {
    w != [] && forall i :: 0 <= i < |w| ==> IsWordChar(w[i])
  }

  /** Words and blanks only. */
  predicate IsPlain(l: seq<char>) {
    forall i :: 0 <= i < |l| ==> l[i] == ' ' || IsWordChar(l[i])
  }

  /** The buffer the reader leaves for a line of fewer than 512 characters. */
  function Buf(line: seq<char>): seq<char>
    requires |line| <= MAX_BUFFER_SIZE
  {
    line + Fill(NUL, MAX_BUFFER_SIZE - |line|)
  }

  lemma BufLine(line: seq<char>)
    requires |line| <= MAX_BUFFER_SIZE && NUL !in line
    ensures Line(Buf(line)) == line && |Buf(line)| == MAX_BUFFER_SIZE
  {
    StrLenPadded(line, MAX_BUFFER_SIZE - |line|);
  }

  /** Two words separated by one blank. */
  lemma TwoWords(u: seq<char>, v: seq<char>)
    requires IsWord(u) && IsWord(v)
    ensures Fields(u + [' '] + v) == [u, v]
    ensures Words(u + [' '] + v) == [u, v]
  {
    WordFields(u);
    WordFields(v);
    FieldsSplit(u, ' ', v);
    assert [u] + [v] == [u, v];
    NonEmptyPair(u, v);
  }

  lemma WordFields(w: seq<char>)
    requires IsWord(w)
    ensures Fields(w) == [w]
  {
    assert forall i :: 0 <= i < |w| ==> !IsSpace(w[i]);
    FieldsOfWord(w);
  }

  lemma NonEmptyPair(u: seq<char>, v: seq<char>)
    requires u != [] && v != []
    ensures NonEmpty([u, v]) == [u, v]
  {
    var f := [u, v];
    assert f[..1] == [u] && f[1] == v;
    assert [u][..0] == [];
    assert NonEmpty([u]) == NonEmpty([]) + [u];
    assert NonEmpty(f) == NonEmpty(f[..1]) + [v];
  }

  /** Trailing blanks add no word. */
  lemma {:induction false} TrailingBlanks(p: seq<char>, n: nat)
    ensures Words(p + Fill(' ', n)) == Words(p)
  {
    if n > 0 {
      TrailingBlanks(p, n - 1);
      assert Fill(' ', n) == Fill(' ', n - 1) + [' '];
      assert p + Fill(' ', n) == (p + Fill(' ', n - 1)) + [' '];
      WordsSnocSpace(p + Fill(' ', n - 1), ' ');
    } else {
      assert p + Fill(' ', n) == p;
    }
  }

  lemma PlainFacts(l: seq<char>)
    requires IsPlain(l)
    ensures Clean(l) && NUL !in l
    ensures PIPE_INPUT !in l && PIPE_OUTPUT !in l && PIPE_BACKGROUND !in l
  {
  }

  /** The first field of a line that starts with a word and a blank is that word. */
  lemma FirstWordOf(w: seq<char>, rest: seq<char>)
    requires IsWord(w) && rest != [] && rest[0] == ' '
    ensures Fields(w + rest)[0] == w
  {
    WordFields(w);
    assert w + rest == w + [' '] + rest[1..];
    FieldsSplit(w, ' ', rest[1..]);
  }

  /** The exit test fires on a line that starts with a word and a blank exactly when the word is exit. */
  lemma ExitWhenFirst(w: seq<char>, rest: seq<char>)
    requires IsWord(w) && rest != [] && rest[0] == ' ' && |w| + |rest| <= MAX_BUFFER_SIZE
    requires NUL !in w + rest
    ensures IsExitCommand(Buf(w + rest)) <==> w == "exit"
  {
    var l := w + rest;
    BufLine(l);
    FirstWordOf(w, rest);
    ExitIsFirstWord(Buf(l));
    assert !IsSpace(l[0]);
  }

  /**
   * A command and one argument, as in "ls -la": run in the foreground with
   * both words as arguments, unless the command is exit.
   */
  lemma PlainCommand(u: seq<char>, v: seq<char>)
    requires IsWord(u) && IsWord(v) && |u| + |v| < MAX_LINE_SIZE
    ensures Execute(false, Buf(u + ([' '] + v)))
         == if u == "exit" then Exit else Job(Some(ParsedCommand([u, v], None, None, false)))
  {
    PlainParse(u, v);
    ExitWhenFirst(u, [' '] + v);
    BufLine(u + ([' '] + v));
  }

  lemma PlainParse(u: seq<char>, v: seq<char>)
    requires IsWord(u) && IsWord(v) && |u| + |v| < MAX_LINE_SIZE
    ensures NUL !in u + ([' '] + v)
    ensures ParseLine(Buf(u + ([' '] + v))) == Some(ParsedCommand([u, v], None, None, false))
  {
    var l := u + [' '] + v;
    assert l == u + ([' '] + v);
    assert IsPlain(l);
    PlainFacts(l);
    BufLine(l);
    TwoWords(u, v);
    ParseCleanLine(Buf(l));
  }

  /**
   * A line that starts with a blank is never the exit command, as in " exit":
   * it is run, with its words as arguments.
   */
  lemma LeadingBlank(u: seq<char>)
    requires IsWord(u) && |u| < MAX_LINE_SIZE
    ensures Execute(false, Buf([' '] + u)) == Job(Some(ParsedCommand([u], None, None, false)))
  {
    var l := [' '] + u;
    assert IsPlain(l);
    PlainFacts(l);
    BufLine(l);
    BlankThenWord(u);
    ParseCleanLine(Buf(l));
  }

  /** The words of a blank followed by a word. */
  lemma BlankThenWord(u: seq<char>)
    requires IsWord(u)
    ensures Words([' '] + u) == [u]
  {
    WordFields(u);
    FieldsSplit([], ' ', u);
    assert [] + [' '] + u == [' '] + u;
    var e: seq<char> := [];
    var f := [e, u];
    assert NonEmpty(f) == NonEmpty([e]) + [u] by {
      assert f[..1] == [e];
    }
    assert NonEmpty([e]) == [] by {
      assert [e][..0] == [];
    }
  }

  /** A command with both redirections, as in "sort < in.txt > out.txt". */
  function Redirected(cmd: seq<char>, inName: seq<char>, outName: seq<char>): seq<char> {
    cmd + [' ', PIPE_INPUT, ' '] + inName + [' ', PIPE_OUTPUT, ' '] + outName
  }

  /** The NUL cells after a line of n characters. */
  function Pad(n: nat): seq<char>
    requires n <= MAX_BUFFER_SIZE
  {
    Fill(NUL, MAX_BUFFER_SIZE - n)
  }

  /** The buffer after getFilename took the output name. */
  function AfterOutput(cmd: seq<char>, inName: seq<char>, outName: seq<char>): seq<char>
    requires |Redirected(cmd, inName, outName)| <= MAX_BUFFER_SIZE
  {
    cmd + [' ', PIPE_INPUT, ' '] + inName + [' '] + [' '] + [' '] + Fill(' ', |outName|)
      + Pad(|Redirected(cmd, inName, outName)|)
  }

  predicate Fits(cmd: seq<char>, inName: seq<char>, outName: seq<char>) {
    && IsWord(cmd) && IsWord(inName) && IsWord(outName)
    && |cmd| + |inName| + |outName| + 6 < MAX_LINE_SIZE
  }

  /** A three-character display inside a concatenation, written as three singletons. */
  lemma Regroup(p: seq<char>, c: char, d: char, e: char, q: seq<char>, r: seq<char>)
    ensures p + [c, d, e] + q + r == p + [c] + [d] + [e] + q + r
  {
    assert p + [c, d, e] == p + [c] + [d] + [e];
  }

  lemma TakeOutput(cmd: seq<char>, inName: seq<char>, outName: seq<char>)
    requires Fits(cmd, inName, outName)
    ensures Take(Buf(Redirected(cmd, inName, outName)), PIPE_OUTPUT)
         == Extraction(AfterOutput(cmd, inName, outName), Some(outName))
  {
    var x := cmd + [' ', PIPE_INPUT, ' '] + inName;
    var rest := Pad(|Redirected(cmd, inName, outName)|);
    Regroup(x, ' ', PIPE_OUTPUT, ' ', outName, rest);
    var a := x + [' '];
    assert forall i :: 0 <= i < |a| ==> a[i] == ' ' || a[i] == PIPE_INPUT || IsWordChar(a[i]);
    TakeWord(a, PIPE_OUTPUT, [' '], outName, rest);
  }

  lemma TakeInput(cmd: seq<char>, inName: seq<char>, outName: seq<char>)
    requires Fits(cmd, inName, outName)
    ensures Take(AfterOutput(cmd, inName, outName), PIPE_INPUT)
         == Extraction(Buf(cmd + Fill(' ', |inName| + |outName| + 6)), Some(inName))
  {
    var rest := Pad(|Redirected(cmd, inName, outName)|);
    var c := [' '] + [' '] + [' '] + Fill(' ', |outName|) + rest;
    var s := cmd + [' '] + [PIPE_INPUT] + [' '] + inName + c;
    var r := cmd + [' '] + [' '] + [' '] + Fill(' ', |inName|) + c;
    assert AfterOutput(cmd, inName, outName) == s by {
      AfterOutputRegrouped(cmd, inName, outName, c);
    }
    assert Take(s, PIPE_INPUT) == Extraction(r, Some(inName)) by {
      TakeWord(cmd + [' '], PIPE_INPUT, [' '], inName, c);
    }
    assert r == Buf(cmd + Fill(' ', |inName| + |outName| + 6)) by {
      BlanksJoin(cmd, |inName|, |outName|, rest);
    }
  }

  lemma AfterOutputRegrouped(cmd: seq<char>, inName: seq<char>, outName: seq<char>, c: seq<char>)
    requires Fits(cmd, inName, outName)
    requires c == [' '] + [' '] + [' '] + Fill(' ', |outName|) + Pad(|Redirected(cmd, inName, outName)|)
    ensures AfterOutput(cmd, inName, outName) == cmd + [' '] + [PIPE_INPUT] + [' '] + inName + c
  {
    var f, rest := Fill(' ', |outName|), Pad(|Redirected(cmd, inName, outName)|);
    Regroup(cmd, ' ', PIPE_INPUT, ' ', inName, c);
    var x := cmd + [' ', PIPE_INPUT, ' '] + inName;
    assert x + [' '] + [' '] + [' '] + f + rest == x + ([' '] + [' '] + [' '] + f + rest);
  }

  lemma BlanksJoin(cmd: seq<char>, a: nat, b: nat, rest: seq<char>)
    requires |cmd| + a + b + 6 <= MAX_BUFFER_SIZE && rest == Fill(NUL, MAX_BUFFER_SIZE - (|cmd| + a + b + 6))
    ensures cmd + [' '] + [' '] + [' '] + Fill(' ', a) + ([' '] + [' '] + [' '] + Fill(' ', b) + rest)
         == Buf(cmd + Fill(' ', a + b + 6))
  {
    assert Fill(' ', 3 + a) + Fill(' ', 3 + b) == Fill(' ', a + b + 6);
    assert [' '] + [' '] + [' '] + Fill(' ', a) == Fill(' ', 3 + a);
    assert [' '] + [' '] + [' '] + Fill(' ', b) == Fill(' ', 3 + b);
  }

  /** What is left once both names are taken: the command word and blanks. */
  lemma CommandThenBlanks(cmd: seq<char>, n: nat, b: seq<char>)
    requires IsWord(cmd) && |cmd| + n <= MAX_BUFFER_SIZE && b == Buf(cmd + Fill(' ', n))
    ensures Arguments(b) == Some([cmd]) && PIPE_BACKGROUND !in Line(b)
  {
    var l := cmd + Fill(' ', n);
    assert IsPlain(l);
    PlainFacts(l);
    BufLine(l);
    TrailingBlanks(cmd, n);
    WordFields(cmd);
    assert Words(cmd) == [cmd] by {
      assert NonEmpty([cmd]) == NonEmpty([]) + [cmd] by {
        assert [cmd][..0] == [];
      }
    }
    CleanArguments(Buf(l));
  }

  /** What the input redirection leaves of the buffer is the command word and blanks. */
  lemma InputStage(cmd: seq<char>, inName: seq<char>, outName: seq<char>)
    requires Fits(cmd, inName, outName)
    ensures var inp := Take(AfterOutput(cmd, inName, outName), PIPE_INPUT);
      && inp.filename == Some(inName)
      && Arguments(inp.buffer) == Some([cmd]) && PIPE_BACKGROUND !in Line(inp.buffer)
  {
    var b := Buf(cmd + Fill(' ', |inName| + |outName| + 6));
    var inp := Take(AfterOutput(cmd, inName, outName), PIPE_INPUT);
    assert inp.buffer == b && inp.filename == Some(inName) by {
      TakeInput(cmd, inName, outName);
    }
    CommandThenBlanks(cmd, |inName| + |outName| + 6, b);
  }

  lemma RedirectedStages(cmd: seq<char>, inName: seq<char>, outName: seq<char>)
    requires Fits(cmd, inName, outName)
    ensures var out := Take(Buf(Redirected(cmd, inName, outName)), PIPE_OUTPUT);
      var inp := Take(out.buffer, PIPE_INPUT);
      && out.filename == Some(outName) && inp.filename == Some(inName)
      && Arguments(inp.buffer) == Some([cmd]) && PIPE_BACKGROUND !in Line(inp.buffer)
  {
    TakeOutput(cmd, inName, outName);
    InputStage(cmd, inName, outName);
  }

  lemma RedirectedParse(cmd: seq<char>, inName: seq<char>, outName: seq<char>)
    requires Fits(cmd, inName, outName)
    ensures ParseLine(Buf(Redirected(cmd, inName, outName)))
         == Some(ParsedCommand([cmd], Some(inName), Some(outName), false))
  {
    var s := Buf(Redirected(cmd, inName, outName));
    RedirectedStages(cmd, inName, outName);
    var out := Take(s, PIPE_OUTPUT);
    ParseLineSteps(s, out, Take(out.buffer, PIPE_INPUT), [cmd]);
  }

  /**
   * Both redirections, as in "sort < in.txt > out.txt": the output name is
   * taken first, then the input name, both are blanked out, and the command
   * word is all that is left to run.
   */
  lemma RedirectedCommand(cmd: seq<char>, inName: seq<char>, outName: seq<char>)
    requires Fits(cmd, inName, outName)
    ensures Execute(false, Buf(Redirected(cmd, inName, outName)))
         == if cmd == "exit" then Exit
            else Job(Some(ParsedCommand([cmd], Some(inName), Some(outName), false)))
  {
    var tail := [' ', PIPE_INPUT, ' '] + inName + [' ', PIPE_OUTPUT, ' '] + outName;
    assert Redirected(cmd, inName, outName) == cmd + tail;
    assert forall i :: 0 <= i < |tail| ==>
      tail[i] == ' ' || tail[i] == PIPE_INPUT || tail[i] == PIPE_OUTPUT || IsWordChar(tail[i]);
    assert NUL !in cmd + tail;
    RedirectedParse(cmd, inName, outName);
    RunsAs(cmd, tail, ParsedCommand([cmd], Some(inName), Some(outName), false));
  }

  /** A plain line closed by '&': the loop stops at the '&', which is its last character. */
  lemma AmpLast(p: seq<char>)
    requires IsPlain(p) && |p| < MAX_LINE_SIZE
    ensures var l := p + [PIPE_BACKGROUND];
      NUL !in l && AmpIndex(l) == |p| && l[..|p|] == p
      && Line(Buf(l)) == l && PIPE_OUTPUT !in l && PIPE_INPUT !in l
  {
    var l := p + [PIPE_BACKGROUND];
    PlainFacts(p);
    assert NUL !in l;
    BufLine(l);
    assert l[..|p|] == p;
    assert forall i :: 0 <= i < |p| ==> l[i] != PIPE_BACKGROUND;
    var k := AmpIndex(l);
    assert k < |l| ==> l[k] == PIPE_BACKGROUND;
    assert l[|p|] == PIPE_BACKGROUND;
  }

  /** The parse of a plain line closed by '&': no redirection, the flag set, argv as prepareArguments leaves it. */
  lemma AmpParse(p: seq<char>, l: seq<char>)
    requires IsPlain(p) && |p| < MAX_LINE_SIZE && Words(p) != [] && l == p + [PIPE_BACKGROUND]
    ensures var w := Words(p);
      var glued := !IsSpace(p[|p| - 1]);
      NUL !in l && ParseLine(Buf(l)) == Some(ParsedCommand(if glued then w[..|w| - 1] else w, None, None, true))
  {
    var s := Buf(l);
    AmpLast(p);
    PlainFacts(p);
    assert p != [];
    BackgroundArguments(s);
    NoMarker(s, PIPE_OUTPUT);
    NoMarker(s, PIPE_INPUT);
    var w := Words(p);
    var argv := if !IsSpace(p[|p| - 1]) then w[..|w| - 1] else w;
    ParseLineSteps(s, Extraction(s, None), Extraction(s, None), argv);
  }

  /** One round of the executor for a line that starts with a word and a blank, once its parse is known. */
  lemma RunsAs(w: seq<char>, rest: seq<char>, command: ParsedCommand)
    requires IsWord(w) && rest != [] && rest[0] == ' ' && |w| + |rest| < MAX_LINE_SIZE
    requires NUL !in w + rest && ParseLine(Buf(w + rest)) == Some(command)
    ensures Execute(false, Buf(w + rest)) == if w == "exit" then Exit else Job(Some(command))
  {
    ExitWhenFirst(w, rest);
    BufLine(w + rest);
  }

  /** "u v &" holds the words u and v before the '&', and its last blank is not glued to it. */
  lemma SpacedWords(u: seq<char>, v: seq<char>)
    requires IsWord(u) && IsWord(v)
    ensures var p := u + [' '] + v + [' '];
      IsPlain(p) && Words(p) == [u, v] && IsSpace(p[|p| - 1])
  {
    var p := u + [' '] + v + [' '];
    assert IsPlain(p);
    TwoWords(u, v);
    TrailingBlanks(u + [' '] + v, 1);
    assert Fill(' ', 1) == [' '];
  }

  lemma BackgroundParse(u: seq<char>, v: seq<char>)
    requires IsWord(u) && IsWord(v) && |u| + |v| + 3 < MAX_LINE_SIZE
    ensures var l := u + ([' '] + v + [' ', PIPE_BACKGROUND]);
      NUL !in l && ParseLine(Buf(l)) == Some(ParsedCommand([u, v], None, None, true))
  {
    var l := u + ([' '] + v + [' ', PIPE_BACKGROUND]);
    var p := u + [' '] + v + [' '];
    assert l == p + [PIPE_BACKGROUND];
    SpacedWords(u, v);
    AmpParse(p, l);
  }

  /**
   * A background job, as in "sleep 10 &": both words are arguments and the
   * job is not waited for.
   */
  lemma BackgroundJob(u: seq<char>, v: seq<char>)
    requires IsWord(u) && IsWord(v) && |u| + |v| + 3 < MAX_LINE_SIZE
    ensures Execute(false, Buf(u + ([' '] + v + [' ', PIPE_BACKGROUND])))
         == if u == "exit" then Exit else Job(Some(ParsedCommand([u, v], None, None, true)))
  {
    BackgroundParse(u, v);
    RunsAs(u, [' '] + v + [' ', PIPE_BACKGROUND], ParsedCommand([u, v], None, None, true));
  }

  lemma GluedWords(u: seq<char>, v: seq<char>)
    requires IsWord(u) && IsWord(v)
    ensures var p := u + [' '] + v;
      IsPlain(p) && Words(p) == [u, v] && !IsSpace(p[|p| - 1])
  {
    assert IsPlain(u + [' '] + v);
    TwoWords(u, v);
  }

  lemma GluedParse(u: seq<char>, v: seq<char>)
    requires IsWord(u) && IsWord(v) && |u| + |v| + 2 < MAX_LINE_SIZE
    ensures var l := u + ([' '] + v + [PIPE_BACKGROUND]);
      NUL !in l && ParseLine(Buf(l)) == Some(ParsedCommand([u], None, None, true))
  {
    var l := u + ([' '] + v + [PIPE_BACKGROUND]);
    var p := u + [' '] + v;
    assert l == p + [PIPE_BACKGROUND];
    GluedWords(u, v);
    var w := Words(p);
    assert w[..|w| - 1] == [u] by {
      assert w == [u, v];
    }
    AmpParse(p, l);
  }

  /**
   * A word glued to '&', as in "sleep 10&": the loop breaks at the '&'
   * before the word is stored, so only the command is an argument.
   */
  lemma GluedAmp(u: seq<char>, v: seq<char>)
    requires IsWord(u) && IsWord(v) && |u| + |v| + 2 < MAX_LINE_SIZE
    ensures Execute(false, Buf(u + ([' '] + v + [PIPE_BACKGROUND])))
         == if u == "exit" then Exit else Job(Some(ParsedCommand([u], None, None, true)))
  {
    GluedParse(u, v);
    RunsAs(u, [' '] + v + [PIPE_BACKGROUND], ParsedCommand([u], None, None, true));
  }

  /**
   * A single word glued to '&', as in "ls&": the word is dropped, so the
   * argument vector is empty but not NULL, and a background job is started
   * with it. Cell 4 is never whitespace here, so not even "exit&" exits.
   */
  lemma LoneGlued(u: seq<char>)
    requires IsWord(u) && |u| + 1 < MAX_LINE_SIZE
    ensures Execute(false, Buf(u + [PIPE_BACKGROUND])) == Job(Some(ParsedCommand([], None, None, true)))
  {
    var l := u + [PIPE_BACKGROUND];
    var s := Buf(l);
    LoneGluedParse(u);
    BufLine(l);
    assert s[|u|] == PIPE_BACKGROUND;
    if |u| > 4 {
      assert s[4] == u[4];
    }
    assert StrLen(s) == |l|;
  }

  /** The parse of a single word glued to '&': an empty argument vector, in the background. */
  lemma LoneGluedParse(u: seq<char>)
    requires IsWord(u) && |u| + 1 < MAX_LINE_SIZE
    ensures NUL !in u + [PIPE_BACKGROUND]
    ensures ParseLine(Buf(u + [PIPE_BACKGROUND])) == Some(ParsedCommand([], None, None, true))
  {
    WordFields(u);
    var f := Fields(u);
    assert f == [u] && f[..|f| - 1] == [];
    assert Words(u) == NonEmpty(f[..|f| - 1]) + [u];
    AmpParse(u, u + [PIPE_BACKGROUND]);
  }

  /** A line of blanks only is not empty, but prepareArguments finds nothing to run. */
  lemma BlankLine(n: nat)
    requires 0 < n < MAX_LINE_SIZE
    ensures Execute(false, Buf(Fill(' ', n))) == Job(None)
  {
    var l := Fill(' ', n);
    assert IsPlain(l);
    PlainFacts(l);
    BufLine(l);
    TrailingBlanks([], n);
    assert [] + l == l;
    assert Words([]) == [];
    ParseCleanLine(Buf(l));
    assert Buf(l)[0] == ' ';
  }

  /** A line that starts with '&', the bare "&" among them, is refused by prepareArguments. */
  lemma AmpFirst(u: seq<char>)
    requires IsPlain(u) && |u| < MAX_LINE_SIZE
    ensures Execute(false, Buf([PIPE_BACKGROUND] + u)) == Job(None)
  {
    var l := [PIPE_BACKGROUND] + u;
    var s := Buf(l);
    PlainFacts(u);
    assert NUL !in l;
    assert PIPE_OUTPUT !in l && PIPE_INPUT !in l;
    BufLine(l);
    RejectedExactly(s);
    assert FirstNonSpace(l) == 0;
    NoMarker(s, PIPE_OUTPUT);
    NoMarker(s, PIPE_INPUT);
    assert s[0] == PIPE_BACKGROUND;
  }

  /** The bare exit command: cell 4 is the NUL after "exit", and the shell finishes. */
  lemma ExitAlone()
    ensures Execute(false, Buf("exit")) == Exit
  {
    BufLine("exit");
  }

  /**
   * A line that arrives in two reads: the second read overwrites the first
   * from cell 0, and the NUL lands at the total count minus one.
   */
  lemma SplitRead()
    ensures LineChunks(["abc", "d\n"])
    ensures Line(Received(["abc", "d\n"])) == "d\nc"
  {
    var chunks := ["abc", "d\n"];
    assert chunks[..1] == ["abc"] && ["abc"][..0] == [];
    assert Total(chunks) == 5;
    var o := Overlay(chunks);
    assert Overlay(["abc"]) == "abc" + Fill(NUL, MAX_BUFFER_SIZE)[3..];
    assert o == "d\n" + Overlay(["abc"])[2..];
    var r := Received(chunks);
    assert r == o[4 := NUL];
    assert r == "d\nc" + Fill(NUL, MAX_BUFFER_SIZE - 3);
    StrLenPadded("d\nc", MAX_BUFFER_SIZE - 3);
  }

  /** An empty line is skipped. */
  lemma EmptyLine()
    ensures Execute(false, Buf([])) == Skip
  {
    var s := Buf([]);
    assert s[0] == NUL;
    assert StrLen(s) == 0;
  }
}
