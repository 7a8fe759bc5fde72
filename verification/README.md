# MetaNote ASR client: the local whisper.cpp adapter and the batch loop

MetaNote's ASR client has a local adapter, `LocalASRClient`, for the
whisper.cpp command-line engine `whisper-cli`. This project is a Dafny model of
that adapter, together with the batch loop of the remote HTTP client
(`ASRClient.recognize_multiple_files`).

Transcribing one audio file (`LocalASRClient.recognize_audio`) goes through
these steps:

1. It builds the argument vector: model file, input file, text output,
   language `zh`, and `-pc`. In whisper-cli, `-pc` turns on coloured output.
2. It finds the engine's build directory, two levels above the absolute path
   of the executable. Computing that path can raise (for a relative path
   while the current directory no longer exists), and nothing catches it.
3. It keeps those of four candidate library directories under the build
   directory that exist, in order.
4. It puts the kept directories, joined by `:`, in front of any non-empty
   previous `DYLD_LIBRARY_PATH` in a copy of the environment.
5. It runs the engine.
6. If the exit code is 0, it:
   - deletes terminal escape sequences from the decoded standard output;
   - parses the timed segments `[start --> end]  text` out of the cleaned
     text, one per well-formed line;
   - returns a record naming the file by its base name.
7. After any other outcome of the run it returns nothing.

The health check asks whether the executable and the model file exist. The
batch loop recognises each file in turn and keeps the files whose result is
truthy, with their results. Recognising a file can also raise: the file is
opened outside the request's `try`. Nothing in the loop catches the exception,
so the whole batch is lost.

Modules:

- `Text`: Python's `str.strip`, `in`, `startswith`, `split(sep)`,
  `split(sep, 1)` and `sep.join`.
- `PosixPath`: `posixpath.dirname`, `basename` and `join`.
- `Ansi`: the escape-sequence filter. It is a recursive scan, proved against
  the pattern's language, `IsEscapeSequence`.
- `Transcript`: the segment parser, with a loop method `ParseSegments` proved
  against the function `Segments`.
- `LocalAsr`: the command, the search path, the environment, the result and
  `RecognizeAudio`.
- `RemoteBatch`: the batch loop.
- `Seqs` and `Wrappers`: the filter-map pass that these three loops share, and
  `Option`.

The escape-sequence filter deletes every escape sequence whole, wherever it
stands (`Ansi.RemovedAnywhere`). It is a single left-to-right substitution,
so it is not idempotent. `Ansi.NotIdempotent` shows this: ESC ESC `A` `B` becomes ESC
`B`, and a second pass deletes that as well. The filter leaves a text
unchanged exactly when no sequence starts anywhere in it (`Ansi.FixedPoints`).
One direction is `Ansi.UnchangedWithoutSequences`. The other is
`Ansi.ShrinksWithSequence`: any sequence makes the output shorter.

The adapter does not check that the audio file exists before it runs the
engine. A missing file shows up only through the engine's outcome, and the
model follows the code in this.

## Model

| member | source | states |
|---|---|---|
| `Ansi.MatchLength` | MetaNote-main/asr_client.py:255 | a match at the front is at least ESC plus one character and never longer than the text |
| `Ansi.MatchSound` | MetaNote-main/asr_client.py:255 | every match found is an escape sequence of the pattern: ESC followed by one Fe character, or by `[`, parameters, intermediates and a final character |
| `Ansi.MatchComplete` | MetaNote-main/asr_client.py:255 | every escape sequence of the pattern at the front is found, with exactly its length |
| `Ansi.ControlBodyRuns` | MetaNote-main/asr_client.py:255 | the greedy parameter and intermediate runs cover a control body exactly when it has the form P* I* |
| `Ansi.StripAnsi` | MetaNote-main/asr_client.py:255-256 | the substitution never lengthens the text |
| `Ansi.StripAnsiSubsequence` | MetaNote-main/asr_client.py:255-256 | the output is a subsequence of the input: the filter only deletes |
| `Ansi.RemovesSequence` | MetaNote-main/asr_client.py:255-256 | an escape sequence at the front is deleted whole, whatever follows it |
| `Ansi.KeepsUnmatched` | MetaNote-main/asr_client.py:255-256 | a character that starts no sequence (an ESC with no valid continuation included) is kept and the scan moves one place on |
| `Ansi.KeepsPlainPrefix` | MetaNote-main/asr_client.py:255-256 | ESC-free text is kept as it is and the rest is filtered on its own |
| `Ansi.SplitAtEsc` | MetaNote-main/asr_client.py:255-256 | no match runs across an ESC: a text followed by text that starts with ESC is filtered as the two parts on their own |
| `Ansi.RemovedAnywhere` | MetaNote-main/asr_client.py:255-256 | an escape sequence is deleted whole wherever it stands, whatever comes before or after it: the output is that of the text before it followed by that of the text after it |
| `Ansi.StripStyled` | MetaNote-main/asr_client.py:255-256 | ESC-free text with a bold sequence and a reset sequence inside comes out with exactly those two sequences deleted |
| `Ansi.UnchangedWithoutEsc` | MetaNote-main/asr_client.py:255-256 | text without ESC, such as a bracketed timestamp line, is returned unchanged |
| `Ansi.UnchangedWithoutSequences` | MetaNote-main/asr_client.py:255-256 | text in which no escape sequence starts anywhere is returned unchanged |
| `Ansi.ShrinksWithSequence` | MetaNote-main/asr_client.py:255-256 | an escape sequence anywhere in the text makes the output strictly shorter |
| `Ansi.FixedPoints` | MetaNote-main/asr_client.py:255-256 | the filter leaves a text unchanged exactly when no escape sequence starts anywhere in it |
| `Ansi.StyledWord` | MetaNote-main/asr_client.py:255-256 | `ESC[1mHello` followed directly by `ESC[0m` becomes `Hello` |
| `Ansi.NotIdempotent` | MetaNote-main/asr_client.py:255-256 | one pass can create a new sequence, so a second pass may delete more |
| `Text.Strip` | MetaNote-main/asr_client.py:290 | `strip` removes the longest runs of the given characters at both ends and keeps the middle as it is |
| `Text.StripPadding` | MetaNote-main/asr_client.py:300-302 | stripping removes exactly the padding (made only of stripped characters) around a non-empty text that neither starts nor ends with a stripped character |
| `Text.StartsWith` | MetaNote-main/asr_client.py:292 | `startswith`: the prefix is no longer than the text and equals its front, so a parsed line starts with `[` (`Transcript.SegmentOnlyFromSegmentLine`) |
| `Text.IndexOf` | MetaNote-main/asr_client.py:292 | the search behind `in`: the leftmost occurrence, or none when the pattern does not occur (the source calls `in`, not `find`) |
| `Text.Contains` | MetaNote-main/asr_client.py:292 | `pat in s` holds exactly when the pattern occurs somewhere, by the contract of `Text.IndexOf` |
| `Text.ContainsChar` | MetaNote-main/asr_client.py:292 | a one-character pattern is in the text exactly when that character is |
| `Text.SplitOn` | MetaNote-main/asr_client.py:297 | for a non-empty `sep`, `split(sep)` gives at least one piece, no piece contains `sep`, and joining the pieces with `sep` gives the text back |
| `Text.SplitOnce` | MetaNote-main/asr_client.py:297 | for a non-empty `sep`, a text with exactly one occurrence of `sep` splits into the parts before and after it |
| `Text.SplitTwice` | MetaNote-main/asr_client.py:297 | for a non-empty `sep`, two non-overlapping occurrences give at least three pieces |
| `Text.Join` | MetaNote-main/asr_client.py:217 | `sep.join`: its partner lemmas are `Text.JoinAppend` and `Text.SplitJoin` |
| `Text.JoinAppend` | MetaNote-main/asr_client.py:217 | joining two non-empty lists puts exactly one separator between their joins |
| `Text.SplitJoin` | MetaNote-main/asr_client.py:217 | for one or more parts, none of which contains the character, splitting at a one-character separator undoes joining with it |
| `Text.Partition` | MetaNote-main/asr_client.py:295 | `split(']', 1)` fails exactly when there is no `]`, and otherwise cuts at the first one |
| `Text.PartitionAt` | MetaNote-main/asr_client.py:295 | a text `a + "]" + b` with no `]` in `a` is cut into `a` and `b` |
| `PosixPath.Basename` | MetaNote-main/asr_client.py:314 | `basename` is the longest suffix without `/` |
| `PosixPath.BasenameOfJoin` | MetaNote-main/asr_client.py:314 | for a name without `/`, `basename(join(d, name))` is `name` |
| `PosixPath.Dirname` | MetaNote-main/asr_client.py:200-201 | for a non-empty `d` without a trailing `/` and a name without `/`, `dirname(join(d, name))` is `d` (`PosixPath.DirnameOfJoin`), so two applications to ROOT/BIN/EXE give ROOT (`LocalAsr.BuildDirOfInstall`) |
| `PosixPath.DirnameOfJoin` | MetaNote-main/asr_client.py:200-201 | for a non-empty `d` without a trailing `/` and a name without `/`, `dirname(join(d, name))` is `d` |
| `PosixPath.PathJoin` | MetaNote-main/asr_client.py:205-208 | for a non-empty directory without a trailing `/` and a name without `/`, `join` puts one `/` between them (`PosixPath.JoinPlain`) and `dirname` recovers the directory (`PosixPath.DirnameOfJoin`); for any directory and a name without `/`, `basename` recovers the name (`PosixPath.BasenameOfJoin`) |
| `PosixPath.JoinPlain` | MetaNote-main/asr_client.py:205-208 | joining a non-empty directory `d` that does not end in `/` with a name without `/` gives `d + "/" + name` |
| `Seqs.FilterMapTrace` | MetaNote-main/asr_client.py:289-303 | the kept values come one per kept element, in element order, and every kept element is represented |
| `Seqs.FilterMapSkips` | MetaNote-main/asr_client.py:304-306 | an element that yields nothing contributes nothing and does not stop the pass |
| `Transcript.Lines` | MetaNote-main/asr_client.py:287 | the trimmed output gives at least one line |
| `Transcript.IsSegmentLine` | MetaNote-main/asr_client.py:292 | the candidate test: the trimmed line starts with `[` and contains `-->`; every segment comes from a line that passes it (`Transcript.SegmentOnlyFromSegmentLine`) |
| `Transcript.ParseSegmentLine` | MetaNote-main/asr_client.py:293-303 | gives nothing where the unpacking raises: there is no `]` (`Transcript.SkipsWithoutBracket`), or there is no `-->` or more than one before the first `]` (`Transcript.SkipsWithoutArrowInTime`, `Transcript.SkipsWithManyArrowsInTime`); a line `[S-->E]T` gives the trimmed triple under the conditions of `Transcript.WellFormedLine` |
| `Transcript.ParseLine` | MetaNote-main/asr_client.py:290-306 | one raw line gives a segment only when, trimmed, it is a candidate with a `]` (`Transcript.SegmentOnlyFromSegmentLine`), and otherwise gives nothing, without stopping the pass |
| `Transcript.Segments` | MetaNote-main/asr_client.py:286-306 | one segment per line that parses, in line order (`Transcript.SegmentsFollowLines`); it is what the loop `Transcript.ParseSegments` returns |
| `Transcript.ParseSegments` | MetaNote-main/asr_client.py:286-306 | the parsing loop returns exactly the segments of the output's lines that parse, in order |
| `Transcript.SegmentsFollowLines` | MetaNote-main/asr_client.py:286-306 | at most one segment per line; the k-th segment comes from the k-th line that parses, in line order, and every line that parses yields one |
| `Transcript.SegmentOnlyFromSegmentLine` | MetaNote-main/asr_client.py:290-295 | a segment comes only from a trimmed line that starts with `[`, contains `-->` and has a `]` |
| `Transcript.SkipsWithoutBracket` | MetaNote-main/asr_client.py:293-306 | a line with no `]` yields no segment |
| `Transcript.SkipsWithoutArrowInTime` | MetaNote-main/asr_client.py:295-306 | a line whose part before the first `]` holds no `-->` yields no segment |
| `Transcript.SkipsWithManyArrowsInTime` | MetaNote-main/asr_client.py:295-306 | a line whose part before the first `]` holds two or more `-->` yields no segment |
| `Transcript.RangeOfTimePart` | MetaNote-main/asr_client.py:296-297 | `[S-->E` with no arrow in S or E, and no `[` at their outer ends, splits into S and E |
| `Transcript.WellFormedLine` | MetaNote-main/asr_client.py:295-303 | a line `[S-->E]T` yields the segment (trim S, trim E, trim T) when S and E hold no `]` and no `-->`, S does not start with `[` and E does not end with `[`; T may itself contain `]` |
| `Transcript.SingleSegmentOutput` | MetaNote-main/asr_client.py:286-303 | an output made of one line `[START --> END]  TEXT` and a newline gives exactly the one segment `(START, END, TEXT)`, for any trimmed fields without line breaks whose times hold no `]`, no `-->`, and do not start/end with `[` |
| `LocalAsr.CheckHealth` | MetaNote-main/asr_client.py:183 | ready exactly when the executable and the model file exist; these are the executable and the model that the command names (`LocalAsr.HealthCoversCommand`) |
| `LocalAsr.Command` | MetaNote-main/asr_client.py:187-194 | the argument vector has nine entries and starts with the executable |
| `LocalAsr.CommandRoundTrip` | MetaNote-main/asr_client.py:187-194 | under the assumed option reading `LocalAsr.ReadOptions`, the arguments give back the configured model, the given audio path, text output, language `zh` and `-pc`, whatever the paths look like |
| `LocalAsr.HealthCoversCommand` | MetaNote-main/asr_client.py:183 | the health check holds exactly when the executable and the model file named by the command exist |
| `LocalAsr.BuildDir` | MetaNote-main/asr_client.py:199-201 | two `dirname`s above the absolute executable path; for ROOT/BIN/EXE that is ROOT under the conditions of `LocalAsr.BuildDirOfInstall` |
| `LocalAsr.BuildDirOfInstall` | MetaNote-main/asr_client.py:199-201 | for an executable at ROOT/BIN/EXE the build directory is ROOT, when ROOT is non-empty without a trailing `/`, BIN is non-empty and neither BIN nor EXE holds `/` |
| `LocalAsr.CandidateLibDirs` | MetaNote-main/asr_client.py:204-209 | there are four candidate library directories |
| `LocalAsr.CandidatesUnderBuild` | MetaNote-main/asr_client.py:204-209 | for a non-empty BUILD without a trailing `/`, the candidates are BUILD/src, BUILD/ggml/src, BUILD/ggml/src/ggml-blas and BUILD/ggml/src/ggml-metal, in that order |
| `LocalAsr.ExistingLibDirs` | MetaNote-main/asr_client.py:212 | never more directories than candidates; exactly the existing candidates in candidate order (`LocalAsr.ExistingInOrder`) |
| `LocalAsr.ExistingInOrder` | MetaNote-main/asr_client.py:212 | the kept directories are exactly the existing candidates, in candidate order |
| `LocalAsr.LaunchEnvironment` | MetaNote-main/asr_client.py:214-222 | the child's environment: only `DYLD_LIBRARY_PATH` may change, nothing changes without library directories, and, when some directory exists and none holds `:`, the new search path lists the directories before the previous entries (the three lemmas below) |
| `LocalAsr.LaunchEnvironmentKeepsOthers` | MetaNote-main/asr_client.py:214-222 | only `DYLD_LIBRARY_PATH` may change, and it is present afterwards exactly when it was before or some directory exists |
| `LocalAsr.LaunchEnvironmentWithoutDirs` | MetaNote-main/asr_client.py:214-215 | with no existing library directory the environment is passed on unchanged |
| `LocalAsr.LaunchSearchPath` | MetaNote-main/asr_client.py:215-222 | when some directory exists and none holds `:`, read back as a `:`-list, the new search path is the existing directories in order, followed by the entries of the previous value when it was non-empty |
| `LocalAsr.RecognizeAudio` | MetaNote-main/asr_client.py:185-334 | the call raises exactly when the absolute path of the executable cannot be computed (that happens before the `try`); otherwise the engine is run with the command in the prepared environment, exit code 0 gives the success record of its output, and any other exit code, a time-out, a missing executable or any other failure of the run gives nothing |
| `LocalAsr.SuccessRecord` | MetaNote-main/asr_client.py:312-319 | the record of a run that exited with 0; its fields are stated by `LocalAsr.SuccessRecordFields` |
| `LocalAsr.StyledSegment` | MetaNote-main/asr_client.py:255-303 | an output of one segment line whose text is wrapped in bold and reset sequences gives the one segment with the plain text, for ESC-free fields meeting the conditions of `Transcript.SingleSegmentOutput` |
| `LocalAsr.SuccessRecordFields` | MetaNote-main/asr_client.py:312-319 | for an audio path `join(dir, name)` with no `/` in `name`, the record has status `success`, the file name `name`, the cleaned output as full text (equal to the output when it has no ESC), the segments parsed from that text, no processing time and the model id `whisper.cpp-ggml-base` |
| `RemoteBatch.Batch` | MetaNote-main/asr_client.py:151-160 | the batch is lost exactly when recognising some file raises; otherwise it holds one entry per file with a truthy result, in file order |
| `RemoteBatch.RecognizeMultipleFiles` | MetaNote-main/asr_client.py:151-160 | the loop returns exactly the batch: it ends with no result at the first file that raises, and otherwise collects one entry per file with a truthy result, in file order |
| `RemoteBatch.AbortsOnRaise` | MetaNote-main/asr_client.py:66-68 | a file whose opening raises (outside the request's `try`, in a loop with no `try`) loses the whole batch, whatever the files around it do |
| `RemoteBatch.BatchInOrder` | MetaNote-main/asr_client.py:151-160 | when the batch completes, each entry pairs a file with its own truthy result, entries follow file order, and every file with a truthy result has one |
| `RemoteBatch.RaisesAround` | MetaNote-main/asr_client.py:151-154 | a batch raises exactly when a file before, the file itself or a file after raises |
| `RemoteBatch.FailureIsolated` | MetaNote-main/asr_client.py:154-155 | a file that returns no result, or a falsy one, is left out: the batch completes exactly when the files before and after it both complete, and then holds their entries |
| `RemoteBatch.SuccessRecorded` | MetaNote-main/asr_client.py:155-159 | a file with a truthy result gets its entry between those of the files around it, under the same completion condition |

## Left out

- Running the engine (`subprocess.run` with its 120-second time-out, and the
  `TimeoutExpired`, `FileNotFoundError` and catch-all handlers) is process
  I/O. `RecognizeAudio` takes it as a function parameter. It maps the command
  and the environment to an outcome: an exit with code and output, a time-out,
  a missing executable, or another failure.
- UTF-8 decoding of the output with `errors='ignore'` is a codec call. The
  model receives standard output already decoded.
- `os.path.abspath` depends on the current directory, so it is a field of
  `Host`. It gives `None` where it raises: a relative path while the current
  directory no longer exists. `RecognizeAudio` returns `Raised` then, because
  the call comes before the `try`; the exception's type is not modelled.
- `os.path.exists` is membership of the literal path string in a set of
  existing paths. There is no normalisation and no symbolic links.
- `os.environ` is a map from names to values.
- Standard error is never used for the result. Logging is left out everywhere,
  including the truncated previews of stderr and of skipped lines.
- The first parsing pass over the output (lines 260-275) is left out, because
  its result is overwritten before it is used.
- All of `ASRClient` except its batch loop is left out. `check_health`,
  `recognize_audio` and `process_video` are HTTP and file-handle I/O.
  `__init__` only removes trailing `/` from the server URL, which only those
  requests use.
- The batch loop takes recognition as a deterministic function of the file
  path. That function returns a result (or none), or raises. Python's
  truthiness of a result is a predicate. A raise is modelled as a lost batch;
  the exception's type and message are not modelled.
- whisper-cli's own argument parser is not part of this model.
  `LocalAsr.ReadOptions` is an assumed reading of its short options, after its
  usage text, and `LocalAsr.CommandRoundTrip` is stated against that reading.
- `LocalASRClient.process_video` is left out: it is a stub that returns
  nothing.
- The convenience wrapper and the command-line entry point are left out.
- `PosixPath.Dirname` and `PosixPath.PathJoin` model only what the client
  uses: `dirname`, and `join` with components folded from the left.
- `Ansi.StripAnsi`: its own contract states only that the text does not grow.
  Its behaviour is stated by the lemmas beside it.
