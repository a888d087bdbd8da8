/**
 * The shell's line buffer and the functions of shell.c that work on it in
 * place. Each method is proved against the specification function on the
 * buffer's contents that the other modules define and reason about.
 */
module Shell {
  import opened CType
  import opened Wrappers
  import opened Strings
  import opened Trimming
  import opened Redirect
  import opened ArgumentParsing
  import opened Command

  class Shell {
    /** The 513-cell line buffer shared by the reader and the executor. */
    var buffer: array<char>
    var inputTooLong: bool
    var finished: bool

    ghost predicate Valid()
      reads this
    {
      buffer.Length == MAX_BUFFER_SIZE
    }

    /**
     * The buffer holds a NUL before cell 512, as the reader guarantees for any
     * line that is not overlong: prepareArguments reads one cell past that NUL.
     */
    ghost predicate Parsable()
      reads this, buffer
    {
      Valid() && StrLen(buffer[..]) < MAX_LINE_SIZE
    }

    constructor ()
      ensures Valid() && buffer[..] == Fill(NUL, MAX_BUFFER_SIZE)
      ensures !inputTooLong && !finished
      ensures fresh(buffer)
    {
      buffer := new char[MAX_BUFFER_SIZE](_ => NUL);
      inputTooLong := false;
      finished := false;
    }

    /** isBufferValid(): the C string is not empty and starts with neither whitespace nor '&'. */
    function IsBufferValid(): (r: bool)
      requires Valid()
      reads this, buffer
      ensures r <==> ValidLine(Line(buffer[..]))
    {
      StrLen(buffer[..]) != 0 && !IsSpace(buffer[0]) && buffer[0] != PIPE_BACKGROUND
    }

    /** isBackgroundJob(): '&' in any of the 513 cells. */
    method IsBackgroundJob() returns (r: bool)
      requires Valid()
      ensures r <==> PIPE_BACKGROUND in buffer[..]
    {
      var i := 0;
      while i < buffer.Length
        invariant 0 <= i <= buffer.Length
        invariant PIPE_BACKGROUND !in buffer[..i]
      {
        if PIPE_BACKGROUND == buffer[i] {
          return true;
        }
        assert buffer[..i + 1] == buffer[..i] + [buffer[i]];
        i := i + 1;
      }
      assert buffer[..i] == buffer[..];
      return false;
    }

    /**
     * getFilename(pipe): blank the first marker before any NUL or newline, then
     * collect the word after it, blanking each of its characters.
     */
    method GetFilename(pipe: char) returns (filename: Option<seq<char>>)
      requires Valid() && IsPipe(pipe)
      modifies buffer
      ensures Extraction(buffer[..], filename) == Take(old(buffer[..]), pipe)
    {
      ghost var s := buffer[..];
      var marker := BlankMarker(pipe);
      if marker.None? {
        // no marker: the second scan would start at the end and read nothing
        return None;
      }
      filename := CollectName(s, marker.value);
      TakeFound(s, pipe, marker.value);
    }

    /**
     * The first scan of getFilename: stop at NUL or newline, or blank the
     * first marker and report where it was.
     */
    method BlankMarker(pipe: char) returns (marker: Option<nat>)
      requires Valid() && IsPipe(pipe)
      modifies buffer
      ensures marker == FindMarker(old(buffer[..]), pipe, 0)
      ensures marker.None? ==> buffer[..] == old(buffer[..])
      ensures marker.Some? ==> buffer[..] == Blanked(old(buffer[..]), marker.value, 0, 0)
    {
      ghost var s := buffer[..];
      var index := 0;
      while index < buffer.Length
        invariant 0 <= index <= buffer.Length
        invariant buffer[..] == s
        invariant FindMarker(s, pipe, index) == FindMarker(s, pipe, 0)
      {
        var c := buffer[index];
        if c == NUL || c == NEW_LINE {
          return None;
        }
        if c == pipe {
          buffer[index] := ' ';
          assert buffer[..] == Blanked(s, index, 0, 0);
          return Some(index);
        }
        index := index + 1;
      }
      return None;
    }

    /**
     * The second scan of getFilename, after the marker at m: skip whitespace,
     * then collect the word up to NUL, newline or whitespace, blanking it.
     */
    method CollectName(ghost s: seq<char>, m: nat) returns (filename: Option<seq<char>>)
      requires Valid() && |s| == buffer.Length && m < |s|
      requires buffer[..] == Blanked(s, m, 0, 0)
      modifies buffer
      ensures var start := SkipBlanks(s, m + 1);
        var end := WordEnd(s, start);
        && buffer[..] == Blanked(s, m, start, end)
        && filename == if start < end then Some(s[start..end]) else None
    {
      var index := m + 1;
      var skip := true;
      var name: seq<char> := [];
      ghost var start := index;
      while index < buffer.Length
        invariant m < index <= buffer.Length
        invariant skip ==> name == [] && SkipBlanks(s, m + 1) == SkipBlanks(s, index)
        invariant skip ==> buffer[..] == Blanked(s, m, 0, 0)
        invariant !skip ==> start == SkipBlanks(s, m + 1) && start < index
        invariant !skip ==> name == s[start..index] && WordEnd(s, start) == WordEnd(s, index)
        invariant !skip ==> buffer[..] == Blanked(s, m, start, index)
      {
        var c := buffer[index];
        assert c == s[index];
        if c == NUL || c == NEW_LINE {
          break;
        }
        if IsSpace(c) {
          if skip {
            index := index + 1;
            continue;
          } else {
            break;
          }
        } else {
          if skip {
            skip := false;
            start := index;
            BlankedEmpty(s, m, 0, index);
          }
          assert s[start..index + 1] == s[start..index] + [c];
          name := name + [c];
          BlankedGrow(s, m, start, index);
          buffer[index] := ' ';
        }
        index := index + 1;
      }

      if !skip {
        filename := Some(name);
      } else {
        filename := None;
        BlankedEmpty(s, m, 0, index);
      }
    }

    /**
     * trim(): build the trimmed copy of the C string, clear the buffer and
     * copy the trimmed string back to its start.
     */
    method Trim()
      requires Valid()
      modifies buffer
      ensures buffer[..] == TrimBuffer(old(buffer[..]))
    {
      var trimmed := TrimmedCopy();
      forall k | 0 <= k < buffer.Length {
        buffer[k] := NUL;
      }
      forall k | 0 <= k < |trimmed| {
        buffer[k] := trimmed[k];
      }
      assert buffer[..] == trimmed + Fill(NUL, MAX_BUFFER_SIZE - |trimmed|);
    }

    /**
     * The loop of trim(): a whitespace character is copied only when it is not
     * the first character and does not follow another whitespace character.
     */
    method TrimmedCopy() returns (trimmed: seq<char>)
      requires Valid()
      ensures trimmed == Trimmed(Line(buffer[..]))
    {
      ghost var s := buffer[..];
      ghost var l := Line(s);
      var n := StrLen(buffer[..]);
      var isLastWhiteSpace := false;
      trimmed := [];
      var i := 0;
      while i < n
        invariant 0 <= i <= n == |l|
        invariant trimmed == Trimmed(l[..i])
        invariant isLastWhiteSpace == (i > 0 && IsSpace(l[i - 1]))
      {
        var c := buffer[i];
        assert c == s[i] == l[i];
        TrimStep(l, i);
        if IsSpace(c) {
          if isLastWhiteSpace {
            i := i + 1;
            continue;
          } else {
            isLastWhiteSpace := true;
            if i == 0 {
              i := i + 1;
              continue;
            }
          }
        } else {
          isLastWhiteSpace := false;
        }
        trimmed := trimmed + [c];
        i := i + 1;
      }
      assert l[..n] == l;
    }

    /**
     * prepareArguments(): trim, reject an invalid line, then split the buffer
     * into arguments.
     */
    method PrepareArguments() returns (argv: Option<seq<seq<char>>>)
      requires Parsable()
      modifies buffer
      ensures Parsable()
      ensures buffer[..] == TrimBuffer(old(buffer[..]))
      ensures argv == Arguments(old(buffer[..]))
    {
      ghost var s := buffer[..];
      Trim();
      TrimBufferLine(s);
      if !IsBufferValid() {
        return None;
      }
      assert buffer[..] == Trimmed(Line(s)) + Fill(NUL, MAX_BUFFER_SIZE - |Trimmed(Line(s))|);
      assert buffer[StrLen(buffer[..]) + 1] == NUL;
      var args := SplitArguments();
      argv := Some(args);
    }

    /**
     * The loop of prepareArguments and the test after it, over the trimmed
     * buffer: whitespace closes an argument, '&' stops the scan, only graphic
     * characters enter an argument, and the scan runs up to and including the
     * NUL. The last argument is kept unless the scan stopped at '&' or the last
     * character that counted was whitespace.
     */
    method SplitArguments() returns (argv: seq<seq<char>>)
      requires Parsable()
      requires buffer[StrLen(buffer[..]) + 1] != PIPE_BACKGROUND  // trim() cleared the cell after the NUL
      ensures argv == ArgvOf(Line(buffer[..]))
    {
      ghost var s := buffer[..];
      ghost var t := Line(s);
      var n := StrLen(buffer[..]);
      var args: seq<seq<char>> := [];
      var argument: seq<char> := [];
      var isLastSpace := false;
      var i := 0;
      ScanStart(t);
      while i <= n
        invariant 0 <= i <= n + 1
        invariant (if i <= n then i else n) <= AmpIndex(t)
        invariant Scanned(t, if i <= n then i else n, args, argument, isLastSpace)
      {
        var c := buffer[i];
        assert c == s[i];
        assert c == if i < n then t[i] else NUL;
        if i < n && c != PIPE_BACKGROUND {
          AmpIndexPast(t, i);
        }
        if IsSpace(c) {
          ScanSpace(t, i, args, argument, isLastSpace);
          args := args + [argument];
          argument := [];
          isLastSpace := true;
          i := i + 1;
          continue;
        }
        if c == PIPE_BACKGROUND {
          ScanDone(t, i, args, argument, isLastSpace);
          isLastSpace := false;
          break;
        }
        if i < n {
          ScanOther(t, i, args, argument, isLastSpace);
        }
        if !IsGraph(c) {
          i := i + 1;
          continue;
        }
        argument := argument + [c];
        isLastSpace := false;
        i := i + 1;
      }

      if i > n {
        ScanDone(t, n, args, argument, isLastSpace);
      }
      if !isLastSpace && buffer[i] != PIPE_BACKGROUND {
        argv := args + [argument];
      } else {
        argv := args;
      }
    }

    /**
     * startJob(), up to the fork: the output file name, then the input file
     * name, then the arguments; the background test only when there are any.
     */
    method StartJob() returns (job: Option<ParsedCommand>)
      requires Parsable()
      modifies buffer
      ensures Parsable()
      ensures buffer[..] == ParsedBuffer(old(buffer[..]))
      ensures job == ParseLine(old(buffer[..]))
    {
      ghost var s := buffer[..];
      var outputFilename := GetFilename(PIPE_OUTPUT);
      TakeFrame(s, PIPE_OUTPUT);
      ghost var s1 := buffer[..];
      var inputFilename := GetFilename(PIPE_INPUT);
      TakeFrame(s1, PIPE_INPUT);
      var args := PrepareArguments();
      if args.None? {
        return None;
      }
      var background := IsBackgroundJob();
      job := Some(ParsedCommand(args.value, inputFilename, outputFilename, background));
    }

    /**
     * The reader's part of one round: clear the buffer, read until a read ends
     * with a newline, flag a line longer than 512 bytes, and otherwise write a
     * NUL into cell Total - 1.
     */
    method Receive(chunks: seq<seq<char>>)
      requires Valid() && LineChunks(chunks)
      modifies this, buffer
      ensures Valid() && buffer == old(buffer) && finished == old(finished)
      ensures inputTooLong <==> Total(chunks) > MAX_LINE_SIZE
      ensures buffer[..] == Received(chunks)
      ensures !inputTooLong ==> Parsable()
    {
      var bufferSize := 0;
      inputTooLong := false;
      forall k | 0 <= k < buffer.Length {
        buffer[k] := NUL;
      }
      assert chunks[..0] == [];
      assert buffer[..] == Fill(NUL, MAX_BUFFER_SIZE);

      var j := 0;
      while j < |chunks|
        invariant 0 <= j <= |chunks|
        invariant Valid() && buffer == old(buffer) && finished == old(finished)
        invariant buffer[..] == Overlay(chunks[..j])
        invariant bufferSize == Total(chunks[..j])
        invariant inputTooLong <==> bufferSize > MAX_LINE_SIZE
      {
        var c := chunks[j];
        assert chunks[..j + 1][..j] == chunks[..j];
        assert chunks[..j + 1][j] == c;
        ghost var before := buffer[..];
        forall k | 0 <= k < |c| {
          buffer[k] := c[k];
        }
        assert buffer[..] == c + before[|c|..];
        bufferSize := bufferSize + |c|;
        if bufferSize > MAX_LINE_SIZE {
          inputTooLong := true;
        }
        j := j + 1;
        if c[|c| - 1] == NEW_LINE {
          break;
        }
      }
      assert j == |chunks| && chunks[..j] == chunks;

      if !inputTooLong {
        buffer[bufferSize - 1] := NUL;
        ReceivedParsable(chunks);
      }
    }

    /**
     * One round of run(): report an overlong line, finish on the exit command,
     * ignore an empty line, and otherwise start the job.
     */
    method RunStep() returns (outcome: Outcome)
      requires Valid() && (!inputTooLong ==> Parsable())
      modifies this, buffer
      ensures Valid() && buffer == old(buffer) && inputTooLong == old(inputTooLong)
      ensures outcome == Execute(old(inputTooLong), old(buffer[..]))
      ensures finished == (old(finished) || outcome == Exit)
      ensures buffer[..] == if outcome.Job? then ParsedBuffer(old(buffer[..])) else old(buffer[..])
    {
      if !inputTooLong {
        if !(buffer[0] == 'e' && buffer[1] == 'x' && buffer[2] == 'i' && buffer[3] == 't'
             && (buffer[4] == NUL || IsSpace(buffer[4]))) {
          if StrLen(buffer[..]) > 0 {
            var job := StartJob();
            outcome := Job(job);
          } else {
            outcome := Skip;
          }
        } else {
          finished := true;
          outcome := Exit;
        }
      } else {
        outcome := InputTooLong;
      }
    }
  }
}
