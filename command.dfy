/**
 * The executor's treatment of one line: the exit test and the empty-line test
 * of run(), and startJob()'s order of parsing; and what the reader leaves in
 * the buffer together with its overlong flag.
 */
module Command {
  import opened CType
  import opened Wrappers
  import opened Strings
  import opened Trimming
  import opened Redirect
  import opened ArgumentParsing

  /** What startJob parses out of the buffer before it forks. */
  datatype ParsedCommand = ParsedCommand(
    args: seq<seq<char>>,
    input: Option<seq<char>>,
    output: Option<seq<char>>,
    background: bool)

  /** The buffer after the output name, then the input name, then the arguments were taken from it. */
  function ParsedBuffer(s: seq<char>): (r: seq<char>)
    ensures |r| == |s|
  {
    TrimBuffer(Take(Take(s, PIPE_OUTPUT).buffer, PIPE_INPUT).buffer)
  }

  /**
   * startJob's parse: output file name first, then input file name, then the
   * argument vector; isBackgroundJob is asked only when there is a vector, on
   * the buffer prepareArguments left.
   */
  function ParseLine(s: seq<char>): (r: Option<ParsedCommand>)
    ensures r.Some? ==> r.value.input != Some([]) && r.value.output != Some([])
  {
    var out := Take(s, PIPE_OUTPUT);
    var inp := Take(out.buffer, PIPE_INPUT);
    match Arguments(inp.buffer)
    case None => None
    case Some(argv) =>
      Some(ParsedCommand(argv, inp.filename, out.filename, PIPE_BACKGROUND in ParsedBuffer(s)))
  }

  /** The exit test of run(): the cells 0..3 hold "exit" and cell 4 is NUL or whitespace. */
  predicate IsExitCommand(s: seq<char>): (b: bool)
    ensures b ==> var l := Line(s); |l| >= 4 && l[..4] == "exit" && (|l| == 4 || IsSpace(l[4]))
  {
    && |s| > 4
    && s[0] == 'e' && s[1] == 'x' && s[2] == 'i' && s[3] == 't'
    && (s[4] == NUL || IsSpace(s[4]))
  }

  /** What one round of the executor does with the line. */
  datatype Outcome =
    | InputTooLong                      // reported, nothing is run
    | Exit                              // the shell finishes
    | Skip                              // empty line
    | Job(command: Option<ParsedCommand>)  // startJob ran; None: nothing was forked

  function Execute(tooLong: bool, s: seq<char>): (o: Outcome)
    ensures o.Job? <==> !tooLong && !IsExitCommand(s) && Line(s) != []
    ensures o == Exit ==> !tooLong && |Line(s)| >= 4 && Line(s)[..4] == "exit"
  {
    if tooLong then InputTooLong
    else if IsExitCommand(s) then Exit
    else if StrLen(s) == 0 then Skip
    else Job(ParseLine(s))
  }

  // ---------------------------------------------------------------------
  // The reader

  /** The bytes read so far for the current line. */
  function Total(chunks: seq<seq<char>>): (n: nat)
    ensures forall i :: 0 <= i < |chunks| ==> |chunks[i]| <= n
  {
    if chunks == [] then 0 else Total(chunks[..|chunks| - 1]) + |chunks[|chunks| - 1]|
  }

  /**
   * The reads that make up one line: each returns 1 to 513 bytes, the last one
   * ends with the newline and no earlier one does.
   */
  predicate LineChunks(chunks: seq<seq<char>>): (ok: bool)
    ensures ok ==> Total(chunks) > 0
  {
    && |chunks| > 0
    && (forall i :: 0 <= i < |chunks| ==> 0 < |chunks[i]| <= MAX_BUFFER_SIZE)
    && (forall i :: 0 <= i < |chunks| - 1 ==> chunks[i][|chunks[i]| - 1] != NEW_LINE)
    && chunks[|chunks| - 1][|chunks[|chunks| - 1]| - 1] == NEW_LINE
  }

  /** The buffer after clearing it and letting every read write from offset 0. */
  function Overlay(chunks: seq<seq<char>>): (r: seq<char>)
    requires forall i :: 0 <= i < |chunks| ==> |chunks[i]| <= MAX_BUFFER_SIZE
    ensures |r| == MAX_BUFFER_SIZE
  {
    if chunks == [] then Fill(NUL, MAX_BUFFER_SIZE)
    else
      var c := chunks[|chunks| - 1];
      c + Overlay(chunks[..|chunks| - 1])[|c|..]
  }

  /**
   * The buffer the reader hands over: unless the line is overlong, cell
   * Total - 1 becomes NUL. That is the newline only when the line came in one
   * read; otherwise the last read's newline and older bytes after it stay.
   */
  function Received(chunks: seq<seq<char>>): (r: seq<char>)
    requires LineChunks(chunks)
    ensures |r| == MAX_BUFFER_SIZE
  {
    var o := Overlay(chunks);
    var n := Total(chunks);
    if n > MAX_LINE_SIZE then o else o[n - 1 := NUL]
  }

  // ---------------------------------------------------------------------
  // Properties

  /**
   * The exit test accepts exactly the lines that start, without leading
   * whitespace, with the word "exit" as their first whitespace-delimited field.
   */
  lemma ExitIsFirstWord(s: seq<char>)
    requires |s| > 4
    ensures var l := Line(s);
      IsExitCommand(s) <==> l != [] && !IsSpace(l[0]) && Fields(l)[0] == "exit"
  {
    var l := Line(s);
    FirstField(l);
    if IsExitCommand(s) {
      assert StrLen(s) >= 4;
      assert l[..4] == "exit";
      assert FirstSpace(l) == 4;
    }
    if l != [] && !IsSpace(l[0]) && Fields(l)[0] == "exit" {
      var k := FirstSpace(l);
      assert l[..k] == "exit";
      assert k == 4;
      assert s[..4] == l[..4];
      assert s[0] == 'e' && s[1] == 'x' && s[2] == 'i' && s[3] == 't';
      assert k == |l| ==> s[4] == NUL;
      assert k < |l| ==> s[4] == l[4];
    }
  }

  /**
   * The background flag is '&' anywhere in the buffer after trim(), which is
   * '&' anywhere in the line before trim().
   */
  lemma BackgroundFlag(s: seq<char>)
    ensures var l := Line(Take(Take(s, PIPE_OUTPUT).buffer, PIPE_INPUT).buffer);
      PIPE_BACKGROUND in ParsedBuffer(s) <==> PIPE_BACKGROUND in l
  {
    var b := Take(Take(s, PIPE_OUTPUT).buffer, PIPE_INPUT).buffer;
    var t := Trimmed(Line(b));
    TrimmedMember(Line(b), PIPE_BACKGROUND);
    var f := Fill(NUL, |b| - |t|);
    assert PIPE_BACKGROUND !in f;
    assert PIPE_BACKGROUND in t + f <==> PIPE_BACKGROUND in t;
  }

  /**
   * A line with no redirection marker and no '&', whose characters are
   * graphic or whitespace, is run with its words as arguments, without
   * redirection, in the foreground; with no words, nothing is run.
   */
  lemma ParseCleanLine(s: seq<char>)
    requires Clean(Line(s))
    requires PIPE_OUTPUT !in Line(s) && PIPE_INPUT !in Line(s) && PIPE_BACKGROUND !in Line(s)
    ensures ParseLine(s) == if Words(Line(s)) == [] then None
                            else Some(ParsedCommand(Words(Line(s)), None, None, false))
  {
    NoMarker(s, PIPE_OUTPUT);
    NoMarker(s, PIPE_INPUT);
    CleanArguments(s);
    BackgroundFlag(s);
  }

  /**
   * ParseLine from its three stages: the buffer after the output name, the
   * buffer after the input name, and the argument vector of what is left.
   */
  lemma ParseLineSteps(s: seq<char>, out: Extraction, inp: Extraction, argv: seq<seq<char>>)
    requires Take(s, PIPE_OUTPUT) == out && Take(out.buffer, PIPE_INPUT) == inp
    requires Arguments(inp.buffer) == Some(argv)
    ensures ParseLine(s)
         == Some(ParsedCommand(argv, inp.filename, out.filename, PIPE_BACKGROUND in Line(inp.buffer)))
  {
    BackgroundFlag(s);
  }

  /** A marker that is not in the C string is not found. */
  lemma NoMarker(s: seq<char>, pipe: char)
    requires IsPipe(pipe) && pipe !in Line(s)
    ensures Take(s, pipe) == Extraction(s, None)
  {
    assert LineEnd(s) <= StrLen(s);
    assert forall j :: 0 <= j < LineEnd(s) ==> s[..LineEnd(s)][j] == Line(s)[j];
    TakeAbsent(s, pipe);
  }

  /** A line the reader has received without overflow has its NUL before cell 512. */
  lemma ReceivedParsable(chunks: seq<seq<char>>)
    requires LineChunks(chunks) && Total(chunks) <= MAX_LINE_SIZE
    ensures StrLen(Received(chunks)) < Total(chunks) <= MAX_LINE_SIZE
  {
    var r := Received(chunks);
    assert r[Total(chunks) - 1] == NUL;
  }

  /** A one-read line of fewer than 512 bytes arrives as its text, without the newline. */
  lemma ReceivedSingle(text: seq<char>)
    requires NUL !in text && |text| < MAX_LINE_SIZE
    ensures LineChunks([text + [NEW_LINE]])
    ensures Total([text + [NEW_LINE]]) <= MAX_LINE_SIZE
    ensures Received([text + [NEW_LINE]]) == text + Fill(NUL, MAX_BUFFER_SIZE - |text|)
    ensures Line(Received([text + [NEW_LINE]])) == text
  {
    var chunks := [text + [NEW_LINE]];
    assert chunks[..0] == [];
    assert Total(chunks) == |text| + 1;
    var c := text + [NEW_LINE];
    assert chunks[|chunks| - 1] == c;
    assert Overlay(chunks[..0]) == Overlay([]) == Fill(NUL, MAX_BUFFER_SIZE);
    var o := Overlay(chunks);
    assert o == c + Fill(NUL, MAX_BUFFER_SIZE)[|c|..];
    var r := Received(chunks);
    assert r == o[|text| := NUL];
    var e := text + Fill(NUL, MAX_BUFFER_SIZE - |text|);
    assert |r| == |e|;
    forall i | 0 <= i < |r| ensures r[i] == e[i] {
      if i < |text| {
        assert r[i] == c[i] == text[i];
      } else if i > |text| {
        assert r[i] == o[i] == Fill(NUL, MAX_BUFFER_SIZE)[i] == NUL;
      }
    }
    assert r == e;
    StrLenPadded(text, MAX_BUFFER_SIZE - |text|);
  }
}
