/**
 * The local whisper.cpp adapter: its health check, the argument vector it runs,
 * the library search path it adds to the child's environment, and the record it
 * builds from the child's output. The process itself, and the host's file
 * system, environment and current directory, are parameters.
 */
module LocalAsr {
  import opened Wrappers
  import opened Text
  import opened Seqs
  import opened PosixPath
  import opened Ansi
  import opened Transcript

  /** The two paths the adapter is configured with. */
  datatype LocalAsrClient = LocalAsrClient(whisperCliPath: string, modelPath: string)

  /**
   * What the adapter reads from its host: the paths that exist, the process
   * environment, and `os.path.abspath`. The latter depends on the current
   * directory and gives `None` where it raises (a relative path while the
   * current directory no longer exists).
   */
  datatype Host = Host(existing: set<string>, environ: map<string, string>, absPath: string -> Option<string>)

  /** How running the transcription engine ended. */
  datatype ProcessOutcome =
    | Exited(returnCode: int, stdout: string, stderr: string)
    | TimedOut
    | ExecutableNotFound
    | LaunchFailed

  /** The record returned on success (the dictionary of the same keys). */
  datatype TranscriptionResult = TranscriptionResult(
    status: string,
    filename: string,
    segments: seq<Segment>,
    fullText: string,
    processingTime: Option<string>,
    model: string)

  /** What transcribing one file does: return a record or nothing, or raise. */
  datatype Recognition = Returned(result: Option<TranscriptionResult>) | Raised

  const ModelId: string := "whisper.cpp-ggml-base"
  const Language: string := "zh"
  const DyldKey: string := "DYLD_LIBRARY_PATH"

  /** The adapter is ready when both its executable and its model file exist. */
  function CheckHealth(client: LocalAsrClient, existing: set<string>): (healthy: bool)
  {
    client.whisperCliPath in existing && client.modelPath in existing
  }

  // ---------------------------------------------------------------------------
  // The argument vector

  /** The argument vector: model, input file, text output, language, coloured output. */
  function Command(client: LocalAsrClient, audioPath: string): (argv: seq<string>)
    ensures |argv| == 9 && argv[0] == client.whisperCliPath
  {
    [client.whisperCliPath, "-m", client.modelPath, "-f", audioPath, "-otxt", "-l", Language, "-pc"]
  }

  /** The options the engine reads from its arguments. */
  datatype CliOptions = CliOptions(
    model: Option<string>,
    file: Option<string>,
    outputText: bool,
    language: Option<string>,
    printColours: bool)

  const NoOptions: CliOptions := CliOptions(None, None, false, None, false)

  /**
   * An assumed reading of the engine's short options, after whisper-cli's usage
   * text: "-m", "-f" and "-l" take the next argument as their value, "-otxt" and
   * "-pc" are switches, anything else is rejected. whisper-cli's own argument
   * parser is not part of this model.
   */
  function ReadOptions(args: seq<string>, opts: CliOptions): Option<CliOptions>
    decreases |args|
  {
    if args == [] then Some(opts)
    else if args[0] == "-otxt" then ReadOptions(args[1..], opts.(outputText := true))
    else if args[0] == "-pc" then ReadOptions(args[1..], opts.(printColours := true))
    else if |args| < 2 then None
    else if args[0] == "-m" then ReadOptions(args[2..], opts.(model := Some(args[1])))
    else if args[0] == "-f" then ReadOptions(args[2..], opts.(file := Some(args[1])))
    else if args[0] == "-l" then ReadOptions(args[2..], opts.(language := Some(args[1])))
    else None
  }

  /**
   * Under that reading, the arguments give back exactly the configured model,
   * the given audio path, text output, the fixed language and coloured output,
   * whatever the paths are (even ones that look like options).
   */
  lemma CommandRoundTrip(client: LocalAsrClient, audioPath: string)
    ensures var argv := Command(client, audioPath);
      ReadOptions(argv[1..], NoOptions)
        == Some(CliOptions(Some(client.modelPath), Some(audioPath), true, Some(Language), true))
  {
    var argv := Command(client, audioPath);
    var o1 := NoOptions.(model := Some(client.modelPath));
    var o2 := o1.(file := Some(audioPath));
    var o3 := o2.(outputText := true);
    var o4 := o3.(language := Some(Language));
    var o5 := o4.(printColours := true);
    assert argv[1..][2..] == ["-f", audioPath, "-otxt", "-l", Language, "-pc"];
    assert ReadOptions(["-pc"], o4) == Some(o5) by {
      assert ["-pc"][1..] == [];
    }
    assert ReadOptions(["-l", Language, "-pc"], o3) == Some(o5) by {
      assert ["-l", Language, "-pc"][2..] == ["-pc"];
    }
    assert ReadOptions(["-otxt", "-l", Language, "-pc"], o2) == Some(o5) by {
      assert ["-otxt", "-l", Language, "-pc"][1..] == ["-l", Language, "-pc"];
    }
    assert ReadOptions(["-f", audioPath, "-otxt", "-l", Language, "-pc"], o1) == Some(o5) by {
      assert ["-f", audioPath, "-otxt", "-l", Language, "-pc"][2..] == ["-otxt", "-l", Language, "-pc"];
    }
  }

  /** The health check asks for exactly the executable and the model file the command names. */
  lemma HealthCoversCommand(client: LocalAsrClient, audioPath: string, existing: set<string>)
    ensures var argv := Command(client, audioPath);
      var opts := ReadOptions(argv[1..], NoOptions);
      && opts.Some? && opts.value.model.Some?
      && (CheckHealth(client, existing) <==> argv[0] in existing && opts.value.model.value in existing)
  {
    CommandRoundTrip(client, audioPath);
  }

  // ---------------------------------------------------------------------------
  // The library search path

  /** The build directory: two levels above the absolute path of the executable. */
  function BuildDir(absCliPath: string): string
  {
    Dirname(Dirname(absCliPath))
  }

  /** The library directories a build may hold, in the order they are searched. */
  function CandidateLibDirs(buildDir: string): (dirs: seq<string>)
    ensures |dirs| == 4
  {
    var ggmlSrc := PathJoin(PathJoin(buildDir, "ggml"), "src");
    [ PathJoin(buildDir, "src"),
      ggmlSrc,
      PathJoin(ggmlSrc, "ggml-blas"),
      PathJoin(ggmlSrc, "ggml-metal") ]
  }

  /** Keep a directory when it exists. */
  function IfExists(existing: set<string>): string -> Option<string>
  {
    d => if d in existing then Some(d) else None
  }

  /** The candidate directories that exist, in candidate order. */
  function ExistingLibDirs(candidates: seq<string>, existing: set<string>): (dirs: seq<string>)
    ensures |dirs| <= |candidates|
  {
    FilterMap(candidates, IfExists(existing))
  }

  /**
   * The existing library directories for a client on a host, or `None` when the
   * absolute path of the executable cannot be computed.
   */
  function LibDirsFor(client: LocalAsrClient, host: Host): Option<seq<string>>
  {
    match host.absPath(client.whisperCliPath)
    case None => None
    case Some(absCliPath) => Some(ExistingLibDirs(CandidateLibDirs(BuildDir(absCliPath)), host.existing))
  }

  /** The previous search path, empty when the variable is not set. */
  function PriorSearchPath(environ: map<string, string>): string
  {
    if DyldKey in environ then environ[DyldKey] else ""
  }

  /**
   * The child's environment: a copy of the host's, in which the library search
   * path gets the existing directories, joined by ':', in front of any previous
   * non-empty value. Without existing directories the copy is left as it is.
   */
  function LaunchEnvironment(environ: map<string, string>, dirs: seq<string>): map<string, string>
  {
    if dirs == [] then environ
    else
      var libPath := Join(dirs, ":");
      var prior := PriorSearchPath(environ);
      environ[DyldKey := if prior != "" then libPath + ":" + prior else libPath]
  }

  /**
   * Under a build directory given without a trailing '/', the candidates are
   * its "src", "ggml/src", "ggml/src/ggml-blas" and "ggml/src/ggml-metal".
   */
  lemma CandidatesUnderBuild(buildDir: string)
    requires buildDir != [] && buildDir[|buildDir| - 1] != '/'
    ensures CandidateLibDirs(buildDir)
      == [buildDir + "/src", buildDir + "/ggml/src", buildDir + "/ggml/src/ggml-blas", buildDir + "/ggml/src/ggml-metal"]
  {
    var ggmlSrc := buildDir + "/ggml/src";
    GgmlSrcUnder(buildDir);
    JoinUnder(buildDir, "src");
    JoinUnder(ggmlSrc, "ggml-blas");
    JoinUnder(ggmlSrc, "ggml-metal");
    LiteralJoins(buildDir);
  }

  /** The "ggml/src" directory of a build, joined in two steps. */
  lemma GgmlSrcUnder(buildDir: string)
    requires buildDir != [] && buildDir[|buildDir| - 1] != '/'
    ensures PathJoin(PathJoin(buildDir, "ggml"), "src") == buildDir + "/ggml/src"
    ensures (buildDir + "/ggml/src")[|buildDir + "/ggml/src"| - 1] != '/'
  {
    JoinUnder(buildDir, "ggml");
    JoinUnder(buildDir + "/ggml", "src");
    assert "/" + "ggml" == "/ggml" && "/ggml" + ("/" + "src") == "/ggml/src";
  }

  /** The joined spellings of the candidates are the literal paths. */
  lemma LiteralJoins(buildDir: string)
    ensures buildDir + ("/" + "src") == buildDir + "/src"
    ensures buildDir + "/ggml/src" + ("/" + "ggml-blas") == buildDir + "/ggml/src/ggml-blas"
    ensures buildDir + "/ggml/src" + ("/" + "ggml-metal") == buildDir + "/ggml/src/ggml-metal"
  {
    assert "/" + "src" == "/src";
    assert "/ggml/src" + ("/" + "ggml-blas") == "/ggml/src/ggml-blas";
    assert "/ggml/src" + ("/" + "ggml-metal") == "/ggml/src/ggml-metal";
  }

  /** Joining a name under a directory without a trailing '/' gives a path without one. */
  lemma JoinUnder(d: string, name: string)
    requires d != [] && d[|d| - 1] != '/'
    requires name != [] && name[0] != '/' && name[|name| - 1] != '/'
    ensures PathJoin(d, name) == d + "/" + name == d + ("/" + name)
    ensures (d + "/" + name)[|d + "/" + name| - 1] != '/'
  {
    assert (d + "/" + name)[|d + "/" + name| - 1] == name[|name| - 1];
  }

  /** For an executable installed as ROOT/BIN/EXE, the build directory is ROOT. */
  lemma BuildDirOfInstall(root: string, bin: string, exe: string)
    requires root != [] && root[|root| - 1] != '/'
    requires bin != [] && '/' !in bin && '/' !in exe
    ensures BuildDir(root + "/" + bin + "/" + exe) == root
  {
    var binDir := root + "/" + bin;
    JoinPlain(root, bin);
    assert binDir[|binDir| - 1] == bin[|bin| - 1];
    JoinPlain(binDir, exe);
    DirnameOfJoin(binDir, exe);
    DirnameOfJoin(root, bin);
  }

  /**
   * The existing directories are the candidates that exist, in candidate order:
   * the k-th comes from position idx[k], positions increase, and every existing
   * candidate is among them.
   */
  lemma ExistingInOrder(candidates: seq<string>, existing: set<string>)
    ensures var dirs, idx := ExistingLibDirs(candidates, existing), KeptIndices(candidates, IfExists(existing));
      && |idx| == |dirs|
      && (forall k :: 0 <= k < |idx| ==> idx[k] < |candidates| && dirs[k] == candidates[idx[k]] && dirs[k] in existing)
      && (forall k, l :: 0 <= k < l < |idx| ==> idx[k] < idx[l])
      && (forall i :: 0 <= i < |candidates| && candidates[i] in existing ==> i in idx)
  {
    FilterMapTrace(candidates, IfExists(existing));
  }

  /** Only the library search path may change; every other variable is copied as it is. */
  lemma LaunchEnvironmentKeepsOthers(environ: map<string, string>, dirs: seq<string>)
    ensures var env := LaunchEnvironment(environ, dirs);
      && (forall k :: k != DyldKey ==> (k in env <==> k in environ))
      && (forall k :: k != DyldKey && k in environ ==> env[k] == environ[k])
      && (DyldKey in env <==> DyldKey in environ || dirs != [])
  {
  }

  /** Without existing library directories the environment is passed on unchanged. */
  lemma LaunchEnvironmentWithoutDirs(environ: map<string, string>)
    ensures LaunchEnvironment(environ, []) == environ
  {
  }

  /**
   * Read back as a ':'-separated list, the new search path is the existing
   * directories, in order, followed by the entries of the previous value when
   * there was one.
   */
  lemma LaunchSearchPath(environ: map<string, string>, dirs: seq<string>)
    requires dirs != []
    requires forall k :: 0 <= k < |dirs| ==> ':' !in dirs[k]
    ensures var env, prior := LaunchEnvironment(environ, dirs), PriorSearchPath(environ);
      && DyldKey in env
      && SplitOn(env[DyldKey], ":") == dirs + (if prior != "" then SplitOn(prior, ":") else [])
  {
    var prior := PriorSearchPath(environ);
    if prior != "" {
      var rest := SplitOn(prior, ":");
      JoinAppend(dirs, rest, ":");
      SplitPiecesFree(prior, ':');
      var all := dirs + rest;
      assert forall k :: 0 <= k < |all| ==> ':' !in all[k] by {
        assert forall k :: |dirs| <= k < |all| ==> all[k] == rest[k - |dirs|];
      }
      SplitJoin(all, ':');
    } else {
      SplitJoin(dirs, ':');
      assert dirs + [] == dirs;
    }
  }

  // ---------------------------------------------------------------------------
  // The result

  /** The record built from the standard output of a run that exited with 0. */
  function SuccessRecord(audioPath: string, stdout: string): (r: TranscriptionResult)
  {
    var text := StripAnsi(stdout);
    TranscriptionResult("success", Basename(audioPath), Segments(text), text, None, ModelId)
  }

  /**
   * Transcribing one audio file. The absolute path of the executable is computed
   * before any handler is in place, so a failure there raises. Otherwise the
   * command is run in the prepared environment: an exit code of 0 gives the
   * success record, and every other outcome of the run (another exit code, a
   * time-out, a missing executable, any other failure) gives nothing.
   */
  method RecognizeAudio(
    client: LocalAsrClient, audioPath: string, host: Host,
    run: (seq<string>, map<string, string>) -> ProcessOutcome)
    returns (r: Recognition)
    ensures r.Raised? <==> host.absPath(client.whisperCliPath).None?
    ensures r.Returned? ==>
      var outcome := run(Command(client, audioPath), LaunchEnvironment(host.environ, LibDirsFor(client, host).value));
      r.result == if outcome.Exited? && outcome.returnCode == 0 then Some(SuccessRecord(audioPath, outcome.stdout)) else None
  {
    var command := Command(client, audioPath);
    var abs := host.absPath(client.whisperCliPath);
    if abs.None? {
      return Raised;
    }
    var absCliPath := abs.value;
    var buildDir := Dirname(Dirname(absCliPath));
    var existingLibDirs := ExistingLibDirs(CandidateLibDirs(buildDir), host.existing);
    var env := host.environ;
    if existingLibDirs != [] {
      var libPath := Join(existingLibDirs, ":");
      var existingDyld := if DyldKey in env then env[DyldKey] else "";
      if existingDyld != "" {
        env := env[DyldKey := libPath + ":" + existingDyld];
      } else {
        env := env[DyldKey := libPath];
      }
    }
    var outcome := run(command, env);
    if outcome.Exited? && outcome.returnCode == 0 {
      var stdoutText := StripAnsi(outcome.stdout);
      var segments := ParseSegments(stdoutText);
      r := Returned(Some(TranscriptionResult("success", Basename(audioPath), segments, stdoutText, None, ModelId)));
    } else {
      r := Returned(None);
    }
  }

  /**
   * The success record names the file by its last path component, keeps the
   * sanitised output as its full text (no longer than the output, and equal to
   * it when the output holds no ESC), and parses its segments from that text.
   */
  lemma SuccessRecordFields(dir: string, name: string, stdout: string)
    requires '/' !in name
    ensures var r := SuccessRecord(PathJoin(dir, name), stdout);
      && r.status == "success"
      && r.filename == name
      && |r.fullText| <= |stdout|
      && (Esc !in stdout ==> r.fullText == stdout)
      && r.segments == Segments(r.fullText)
      && r.processingTime.None?
      && r.model == ModelId
  {
    BasenameOfJoin(dir, name);
    if Esc !in stdout {
      UnchangedWithoutEsc(stdout);
    }
  }

  /**
   * A segment line whose text is wrapped in the bold and reset sequences gives
   * the plain text as the segment's text: the sequences are deleted before the
   * line is parsed.
   */
  lemma StyledSegment(audioPath: string, start: string, end: string, text: string)
    requires TimeField(start) && TimeField(end)
    requires Trimmed(text) && '\n' !in text
    requires Esc !in start && Esc !in end && Esc !in text
    ensures SuccessRecord(audioPath, "[" + start + " --> " + end + "]  " + Bold + text + Reset + "\n").segments
      == [Segment(start, end, text)]
  {
    var pre := "[" + start + " --> " + end + "]  ";
    LayoutFree(start, end);
    StripStyled(pre, text, "\n");
    SingleSegmentOutput(start, end, text);
  }

  /** The layout around the fields adds no ESC. */
  lemma LayoutFree(start: string, end: string)
    requires Esc !in start && Esc !in end
    ensures Esc !in "[" + start + " --> " + end + "]  " && Esc !in "\n"
  {
  }
}
