# shell.c command-line parsing core in Dafny

This project models the part of `shell.c` that turns a line typed at the
prompt into a command. That part is:

- the reader, which fills the 513-cell buffer with one line;
- the executor's decision about the line: input too long, `exit`, empty, or a job;
- `startJob`'s parse order: the output file name (`getFilename('>')`), then the
  input file name (`getFilename('<')`), then the argument vector
  (`prepareArguments`, which runs `trim` and `isBufferValid`), then the
  background flag (`isBackgroundJob`).

The buffer is a field `buffer: array<char>` of the class `Shell.Shell`. Every
routine that changes the buffer in place is a method with a loop. Each method
is proved against a function on the buffer's contents:

| method | function it is proved against |
|---|---|
| `Trim` | `TrimBuffer` |
| `GetFilename` | `Take` |
| `PrepareArguments` | `Arguments` |
| `StartJob` | `ParseLine` |
| `RunStep` | `Execute` |

The properties of those functions are proved as lemmas.

Modules:

- `CType` holds the constants of the source and its character classes (`isspace`,
  `isgraph` in the C locale); `Wrappers` holds `Option`.
- `Strings` holds `strlen`, the C-string view `Line` of a buffer, whitespace
  fields and words.
- `Trimming` models `trim`.
- `Redirect` models `getFilename`.
- `ArgumentParsing` models `isBufferValid` and `prepareArguments`.
- `Command` models `startJob`'s parse, `run`'s decision and the reader's buffer.
- `Shell` holds the class with the buffer and the in-place methods.
- `Scenarios` holds whole-line lemmas. Each one covers every choice of the
  words in the line: `ls -la`, `sort < in.txt > out.txt`, `sleep 10 &`, a word
  glued to `&`, a blank line, `&ls`, and the empty line.

The model follows the code where it behaves differently from what a reader
would expect of a shell:

- **The exit test is on cells.** `run` compares cells 0 to 4 of the buffer
  (shell.c:302). So `" exit"` (with a leading blank) is not the exit command,
  while `"exit\tnow"` is. `Command.ExitIsFirstWord` states the exact condition.
- **A word glued to `&` is dropped.** The argument loop stops at `&`, and the
  final test then drops the word it was collecting (shell.c:215-218, 231-237).
  So `"sleep 10&"` runs `sleep` with no argument, while `"sleep 10 &"` runs
  `sleep 10`. See `Scenarios.GluedAmp` and `Scenarios.BackgroundJob`.
- **An argument can be empty, or missing.** The argument loop skips
  non-graphic characters without touching `isLastSpace` (shell.c:220-222).
  So a word made only of such characters (control characters, say) gives an
  empty argument when whitespace follows it or when it is the only word. As
  the last of several words it gives no argument at all, because the blank
  before it left `isLastSpace` set for the final test (shell.c:231-237).
  `ArgumentParsing.NonGraphicWord` proves both cases, and
  `ArgumentParsing.ArgvGraphic` states what every argument does hold.
- **`&` is found anywhere in the trimmed buffer.** The background flag is
  `isBackgroundJob` on the buffer that `trim` left. It is set when `&` is
  anywhere in that buffer, also after text that was ignored
  (`Command.BackgroundFlag`).
- **`trim` keeps one trailing whitespace character.** The loop drops a
  whitespace character only at the start or after another one
  (shell.c:439-447), so `"ls "` stays `"ls "`. The argument loop then closes
  the last word on that character and adds no empty argument
  (`Trimming.TrimmedLastSpace`, `ArgumentParsing.ArgvNoAmp`).
- **A single word glued to `&` gives an empty vector.** For `"ls&"` the loop
  stops at `&` before it stores `ls`, and the final test stores nothing, so
  `prepareArguments` returns a vector holding only NULL, not NULL itself.
  `startJob` then forks a background child that calls `execvp` with a NULL
  program name (`Scenarios.LoneGlued`).
- **A line read in several pieces is garbled.** Every `read` writes from
  cell 0 (shell.c:263), and the NUL goes into cell `bufferSize - 1`, counted
  over all reads (shell.c:276). So when "abcd" arrives as the reads "abc" and
  "d\n", the executor sees the C string "d\nc" (`Scenarios.SplitRead`).
- **Two failures are the same.** In the code, an empty line and an all-blank
  line take different paths (shell.c:303, 196). Both end with nothing run.

## Model

| member | source | states |
|---|---|---|
| Strings.StrLen | shell.c:201 | `strlen`: the index of the first NUL; no cell before it is NUL |
| Strings.WordsNonEmpty | shell.c:201-212 | no whitespace-delimited word of a line is empty, so repeated whitespace yields no empty word |
| Trimming.Trimmed | shell.c:438-455 | the trimmed string is no longer than the line and keeps the line's last character when that is not whitespace |
| Trimming.TrimStep | shell.c:438-455 | one step of trim's loop: a whitespace character after whitespace, or at the start, is dropped; any other character is appended |
| Trimming.TrimmedIsShaped | shell.c:438-455 | the result never starts with whitespace and never holds two whitespace characters in a row |
| Trimming.TrimmedLastSpace | shell.c:438-455 | the result ends with whitespace only when the line does |
| Trimming.TrimmedNonSpace | shell.c:438-455 | the non-whitespace characters of the line are kept, all of them, in order |
| Trimming.TrimmedMember | shell.c:438-455 | a non-whitespace character is in the result exactly when it is in the line |
| Trimming.TrimmedClean | shell.c:438-455 | a line of graphic and whitespace characters stays so |
| Trimming.TrimmedHead | shell.c:438-455 | the result is empty exactly when the line is all whitespace; otherwise it starts with the line's first non-whitespace character |
| Trimming.TrimWords | shell.c:438-455 | trimming keeps the whitespace-delimited words of the line and its last field |
| Trimming.TrimmedShaped | shell.c:438-455 | a line already in trimmed shape is left unchanged, so trimming twice equals trimming once |
| Trimming.TrimmedPrefix | shell.c:438-455 | trimming a longer line extends the trimmed shorter line, because the loop only appends |
| Trimming.TrimBuffer | shell.c:457-458 | the buffer after trim's memset and memcpy keeps its number of cells |
| Trimming.TrimBufferLine | shell.c:457-458 | after the memset and the memcpy, the buffer's C string is the trimmed line and the cells keep their number |
| Redirect.Take | shell.c:462-517 | getFilename on the buffer: the buffer keeps its 513 cells, and a file name it returns is never empty |
| Redirect.LineEnd | shell.c:474-477 | the first NUL or newline, where the marker search returns |
| Redirect.FindMarker | shell.c:474-484 | the first marker before the line end, with no marker or line end before it; none when the marker is not in the line |
| Redirect.SkipBlanks | shell.c:486-497 | the whitespace after the marker that is skipped: it stops at a newline or at a non-whitespace cell |
| Redirect.WordEnd | shell.c:486-509 | the file name runs to the next NUL or whitespace cell |
| Redirect.TakeAbsent | shell.c:474-477 | the buffer is unchanged exactly when the marker is not in the line, and then there is no file name |
| Redirect.TakeAt | shell.c:462-517 | for the first marker: the file name is the word after the blanks, or none when a line end follows; the marker and the name's cells become blanks, and no other cell changes |
| Redirect.MarkerFirst | shell.c:474-484 | the first occurrence of the marker within the line is the one found |
| Redirect.FindMarkerAt | shell.c:474-484 | the search reaches a marker when the cells before it are neither markers nor line ends |
| Redirect.TakeFrame | shell.c:474-509 | getFilename writes blanks only, only before the line end; strlen and the line end are unchanged |
| Redirect.TakeWord | shell.c:474-516 | text, marker, blanks, a word, then a NUL or whitespace: the word is the file name, and the marker and the word become blanks |
| Redirect.SkipBlanksAt | shell.c:486-497 | the skipped whitespace ends where the whitespace run ends |
| Redirect.WordEndAt | shell.c:486-509 | the file name ends where the run of non-whitespace ends |
| ArgumentParsing.ValidLine | shell.c:564-578 | isBufferValid holds exactly when the argument loop starts inside a word: cell 0 is neither whitespace nor '&', nor the end of the string |
| ArgumentParsing.ArgvOf | shell.c:201-237 | the argument vector has no more entries than the line before the first '&' has fields |
| ArgumentParsing.Arguments | shell.c:189-240 | prepareArguments: when it returns a vector, every character of every argument is graphic |
| ArgumentParsing.AmpIndex | shell.c:215-218 | the first '&' in the trimmed line, where the argument loop stops |
| ArgumentParsing.RejectedExactly | shell.c:195-199 | prepareArguments returns NULL exactly when the line is all whitespace or its first non-whitespace character is '&' |
| ArgumentParsing.ArgvGraphic | shell.c:220-226 | every character of every argument is graphic |
| ArgumentParsing.NonGraphicWord | shell.c:201-237 | a word with no graphic character gives one empty argument when it is alone, and no argument when it follows a graphic word and a blank |
| ArgumentParsing.GraphicFields | shell.c:220-226 | on a line of graphic and whitespace characters, the filter that keeps graphic characters changes nothing |
| ArgumentParsing.ArgvNoAmp | shell.c:201-237 | a non-empty line in trimmed shape, of graphic and whitespace characters only and without '&', gives its words as arguments |
| ArgumentParsing.ArgvAmp | shell.c:215-237 | a trimmed line with '&' gives the fields before '&' but the last one, all of them non-empty |
| ArgumentParsing.CleanArguments | shell.c:189-240 | a line of graphic and whitespace characters without '&' gives its words, or NULL when it has none |
| ArgumentParsing.TrimmedAtAmp | shell.c:195-218 | the first '&' of the trimmed line comes right after the trimmed text before the first '&' of the line |
| ArgumentParsing.AmpIndexAfter | shell.c:215-218 | a line that starts with text free of '&' followed by '&' has its first '&' there |
| ArgumentParsing.BackgroundArguments | shell.c:189-240 | a line with '&' gives its words before '&', less the last word when that word is glued to '&', or NULL when there are none |
| ArgumentParsing.BackgroundWords | shell.c:201-237 | the closed fields of the trimmed text are its words, less a last word that is not followed by whitespace |
| ArgumentParsing.AmpIndexPast | shell.c:201-218 | a cell before the first '&' that is not '&' keeps the loop going |
| ArgumentParsing.ScanStart | shell.c:190-201 | the loop invariant holds at the start: no arguments and an empty current argument |
| ArgumentParsing.ScanSpace | shell.c:202-212 | whitespace closes the current argument and sets isLastSpace |
| ArgumentParsing.ScanOther | shell.c:220-228 | a graphic character extends the current argument and clears isLastSpace; any other character is skipped |
| ArgumentParsing.ScanDone | shell.c:231-237 | when the loop ends, the current argument is added only when the last character was not whitespace and the loop did not stop at '&' |
| ArgumentParsing.StepSpace | shell.c:202-212 | on whitespace the closed arguments grow by the current one, and a new empty one begins |
| ArgumentParsing.StepChar | shell.c:220-228 | on other characters the closed arguments stay, and the current one grows by the character when it is graphic |
| Command.ParsedBuffer | shell.c:324-326 | the buffer after both getFilename calls and prepareArguments keeps its number of cells |
| Command.ParseLine | shell.c:323-333 | startJob's parse: a redirection file name it reports is never empty |
| Command.IsExitCommand | shell.c:302 | when the exit test holds, the C string starts with "exit" and ends there or goes on with whitespace |
| Command.Execute | shell.c:300-311 | a job is started exactly when the line is not overlong, is not the exit command and is not empty; the shell exits only on a line that is not overlong and starts with "exit" |
| Command.Total | shell.c:262-268 | the bytes counted so far are at least the bytes of every single read |
| Command.LineChunks | shell.c:262-273 | the reads that make up one line have delivered at least one byte |
| Command.Received | shell.c:256-277 | the buffer the reader hands over always has its 513 cells |
| Command.ExitIsFirstWord | shell.c:302 | the exit test holds exactly when the line starts without whitespace and its first field is "exit" |
| Command.BackgroundFlag | shell.c:333 | '&' in the buffer after trim() exactly when '&' is in the line before trim() |
| Command.ParseCleanLine | shell.c:323-326 | a line without markers, of graphic and whitespace characters: its words, no redirection, foreground; nothing when it has no words |
| Command.ParseLineSteps | shell.c:323-326 | the parsed command from the three stages: output name, then input name, then arguments, then the background flag |
| Command.NoMarker | shell.c:474-477 | a marker that is not in the C string leaves the buffer unchanged and gives no file name |
| Command.Overlay | shell.c:256-273 | the cleared buffer after every read has written from cell 0: always 513 cells |
| Command.ReceivedParsable | shell.c:262-277 | a line that is not overlong has a NUL before cell 512 |
| Command.ReceivedSingle | shell.c:262-277 | one read of a line with its newline leaves the line, then NUL cells; the C string is the line |
| Shell.Shell.constructor | shell.c:46-50 | the buffer has 513 NUL cells; neither flag is set |
| Shell.Shell.IsBufferValid | shell.c:564-578 | true exactly when the C string is non-empty and starts with neither whitespace nor '&' |
| Shell.Shell.IsBackgroundJob | shell.c:420-430 | true exactly when '&' is in one of the 513 cells |
| Shell.Shell.GetFilename | shell.c:462-517 | the new buffer and the file name are those of `Take` on the old buffer |
| Shell.Shell.BlankMarker | shell.c:474-484 | the first loop: finds the first marker in the line and blanks it, or leaves the buffer unchanged |
| Shell.Shell.CollectName | shell.c:486-516 | the second loop: skips blanks, collects the word as the file name, and blanks its cells |
| Shell.Shell.Trim | shell.c:433-459 | the buffer becomes the trimmed line followed by NUL cells |
| Shell.Shell.TrimmedCopy | shell.c:434-455 | the string the loop collects is `Trimmed` of the C string |
| Shell.Shell.PrepareArguments | shell.c:189-240 | the buffer is trimmed, and the result is `Arguments` of the old buffer: NULL or the argument vector |
| Shell.Shell.SplitArguments | shell.c:201-237 | the argument vector the loop and the final test build is `ArgvOf` of the C string |
| Shell.Shell.StartJob | shell.c:323-333 | the parsed command and the buffer left are those of `ParseLine` and `ParsedBuffer` on the old buffer |
| Shell.Shell.Receive | shell.c:252-277 | the too-long flag is set exactly when more than 512 bytes arrived; the buffer is `Received` of the reads; a line that is not too long has its NUL before cell 512 |
| Shell.Shell.RunStep | shell.c:300-311 | the outcome is `Execute` of the flag and the buffer; the shell is finished exactly after an exit; only a job changes the buffer |
| Scenarios.PlainCommand | shell.c:300-326 | "u v" runs u with arguments [u, v] in the foreground, without redirection; it exits when u is "exit" |
| Scenarios.PlainParse | shell.c:323-326 | "u v" parses to the arguments [u, v], no redirection, no background |
| Scenarios.LeadingBlank | shell.c:300-326 | " u" is not the exit command, even for "exit"; it runs u |
| Scenarios.TakeOutput | shell.c:324 | in "cmd < in > out", getFilename('>') returns out and blanks the marker and the name |
| Scenarios.TakeInput | shell.c:325 | then getFilename('<') returns in and blanks the marker and the name |
| Scenarios.RedirectedStages | shell.c:323-325 | both file names are taken and only blanks after cmd are left, without '&' |
| Scenarios.RedirectedParse | shell.c:323-326 | "cmd < in > out" parses to the arguments [cmd], input in, output out, foreground |
| Scenarios.RedirectedCommand | shell.c:300-326 | "cmd < in > out" runs cmd with both redirections, or exits when cmd is "exit" |
| Scenarios.AmpParse | shell.c:323-333 | a plain line followed by '&' parses to its words, less a last word glued to '&', in the background |
| Scenarios.RunsAs | shell.c:300-305 | a line whose first word is followed by a blank runs its parsed command, or exits when that word is "exit" |
| Scenarios.BackgroundParse | shell.c:323-333 | "u v &" parses to [u, v] in the background |
| Scenarios.BackgroundJob | shell.c:300-333 | "u v &" runs u with [u, v] in the background, or exits when u is "exit" |
| Scenarios.GluedParse | shell.c:323-333 | "u v&" parses to [u] in the background |
| Scenarios.GluedAmp | shell.c:300-333 | "u v&" runs u with [u] alone in the background: the glued word is dropped |
| Scenarios.BlankLine | shell.c:300-326 | a line of blanks is not empty to run(), and prepareArguments finds nothing to run |
| Scenarios.AmpFirst | shell.c:300-326 | "&u", for any plain text u and so also the bare "&", is rejected by isBufferValid, so nothing is run |
| Scenarios.LoneGluedParse | shell.c:215-237 | "u&" for a single word u parses to an empty argument vector, not NULL, in the background |
| Scenarios.LoneGlued | shell.c:300-333 | "u&" starts a background job with an empty argument vector; even "exit&" does not exit |
| Scenarios.ExitAlone | shell.c:300-308 | the bare "exit" line finishes the shell |
| Scenarios.SplitRead | shell.c:256-277 | the reads "abc" then "d\n" hand the executor the C string "d\nc", not "abcd" |
| Scenarios.EmptyLine | shell.c:300-305 | the empty line is skipped |

## Left out

- Threads, the mutex and the condition variable (`simulateShell` and `run`
  taking turns, shell.c:250-320): `Shell.Shell.Receive` and
  `Shell.Shell.RunStep` are the two halves of one round, and the rendezvous
  between them is not modelled.
- `read()` on standard input: it becomes the sequence of chunks the reads
  return. The prompt (`flush`) is not modelled.
- Shell.Shell.Receive requires `Command.LineChunks`: every read returns 1 to
  513 bytes. That leaves out end of input (read returns 0) and a read error
  (read returns -1). On end of input shell.c:270 reads `buffer[-1]`; on a
  read error it reads `buffer[-2]`. Both are out-of-bounds reads, and unless
  that byte happens to be a newline the loop keeps calling `read`.
- `fork`, `execvp`, `wait`, `setsid`, and the signal handlers and their
  installation (`initSigAction`, `ignoreSignals`, `childHandler`,
  `killHandler`): this is process and signal I/O. The model stops at the
  parsed command that `startJob` would launch.
- `dump` and `suck` (opening the redirection files), `main`, `threadError` and
  `garbageCollector`: this is file and process I/O, and cleanup.
- `malloc` and `realloc` sizes: the strings are Dafny sequences.
- Each `argument` buffer is never NUL-terminated before it reaches `execvp`
  (shell.c:224-225). In the model an argument is just its characters.
- When argc > 0, `argv[argc] = argument` (shell.c:232) and `argv[argc] = NULL`
  (shell.c:236) write slot argc of a vector that has only argc slots. The
  `realloc` at shell.c:233 comes after that write and need not keep it. The
  model's vector holds every argument it stores.
- Three memory bugs are modelled as evidently intended:
  - `filename[size + 1]` writes one cell past the name (shell.c:513);
  - `argv[argc + 1]` writes past the vector (shell.c:234);
  - `trimmedString` has no terminating NUL before `strlen` (shell.c:458).
- `getFilename`'s exit on a wrong marker (shell.c:468-472) has no model.
  Instead, `IsPipe(pipe)` is a precondition, and `startJob` only passes '<' or '>'.
- `isExit` is declared (shell.c:153) but never defined, so it has no model.
  The exit test inline in `run` is modelled instead.
- `Shell.Shell.SplitArguments` requires that the cell after the NUL is not '&'.
  The loop reads that cell in its final test (shell.c:231). `trim()` has
  cleared it, so `Shell.Shell.PrepareArguments` meets the precondition.
- `Shell.Shell.PrepareArguments`, `Shell.Shell.StartJob`: these require that
  the NUL comes before cell 512, because the final test reads the cell after
  it. `Command.ReceivedParsable` proves that the reader leaves every line that
  is not overlong so. The executor never parses an overlong line.
