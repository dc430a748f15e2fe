/**
 * `main()` of build.py as a whole: the command line is checked first; then
 * `out` may be removed, every matched file is compiled or copied, and the
 * version file is written. The file-system changes are returned as a list of
 * actions in the order the script makes them, so that what a failure leaves
 * behind can be read off the outcome.
 */
module Build {
  import opened Wrappers
  import opened PyStr
  import opened Options
  import opened Pipeline
  import opened Stamp

  /** A change the script makes under its own directory. */
  datatype Action =
    | RemoveOutDir                          // shutil.rmtree("out")
    | WriteFile(path: string, text: string) // makedirs for the parent, then open(path, "w").write(text)

  /** Why a build that got past the command line stops. */
  datatype BuildError =
    | EvaluationError(path: string, message: string) // the evaluator rejected a template
    | VersionFileMissing                             // src/version.txt cannot be opened
    | OutDirMissing                                  // out/version.txt cannot be created: no out directory

  datatype Outcome =
    | UsageError(unrecognized: set<string>)
    | HelpShown
    | Failed(error: BuildError, actions: seq<Action>)
    | Built(actions: seq<Action>, version: string)
  {
    /** The exit status of the process: 1 for a usage error or an uncaught exception, 0 otherwise. */
    function ExitStatus(): int
    {
      if UsageError? || Failed? then 1 else 0
    }
  }

  /** Where the version string is written. */
  const VersionTarget := "out/version.txt"

  /** The writes of the per-file loop as file-system actions. */
  function WriteActions(writes: seq<Write>): seq<Action>
  {
    seq(|writes|, i requires 0 <= i < |writes| => WriteFile(writes[i].path, writes[i].text))
  }

  /** `rmtree("out")` happens when `clean` was asked for and `out` exists. */
  function Cleanup(options: set<string>, outExists: bool): seq<Action>
  {
    if "clean" in options && outExists then [RemoveOutDir] else []
  }

  /**
   * Everything after the command-line check, for the option set `args`.
   * `outExists` says whether `out` exists beforehand, `files` are the matched
   * files in traversal order with their text, and `baseVersion` is the text of
   * src/version.txt, if that file can be opened.
   */
  method BuildWith(args: set<string>, outExists: bool, files: seq<SourceFile>, baseVersion: Option<string>,
                   eval: Evaluator, sha: Hasher) returns (r: Outcome)
    requires forall i :: 0 <= i < |files| ==> Paths.UnderSrc(files[i].path)
    ensures r.Failed? || r.Built?
    // a failed build leaves the clean-up and the writes made before the failure, and no version file
    ensures r.Failed? ==> r.actions == Cleanup(args, outExists) + WriteActions(Process(files, eval).writes)
    ensures r.Failed? && r.error.EvaluationError? <==> Process(files, eval).Aborted?
    ensures r.Failed? && r.error.EvaluationError? ==>
              r.error == EvaluationError(Process(files, eval).path, Process(files, eval).message)
    ensures r.Failed? && r.error.VersionFileMissing? <==> Process(files, eval).Running? && baseVersion.None?
    // a complete build: every file written, then the version stamped from the digests of the raw texts
    ensures r.Built? <==> Process(files, eval).Running? && baseVersion.Some?
                          && (files != [] || (outExists && "clean" !in args))
    ensures r.Built? ==>
              && baseVersion.Some?
              && r.version == VersionString(baseVersion.value, sha(HashInput(Digests(files, sha))), "release" in args)
              && r.actions == Cleanup(args, outExists) + WriteActions(Process(files, eval).writes)
                              + [WriteFile(VersionTarget, r.version)]
  {
    var actions: seq<Action> := [];
    var outDir := outExists;
    if "clean" in args && outExists {
      actions := actions + [RemoveOutDir];
      outDir := false;
    }

    assert actions == Cleanup(args, outExists);
    var progress, hashes := RunPipeline(files, eval, sha);
    actions := actions + WriteActions(progress.writes);
    assert actions == Cleanup(args, outExists) + WriteActions(Process(files, eval).writes);
    if progress.Aborted? {
      return Failed(EvaluationError(progress.path, progress.message), actions);
    }
    ProcessWrites(files, eval);
    if progress.writes != [] {
      // every output path lies under out/, so the first write created it
      outDir := true;
    }

    var versionHashDigest := AggregateDigest(hashes, sha);

    if baseVersion.None? {
      return Failed(VersionFileMissing, actions);
    }
    if !outDir {
      return Failed(OutDirMissing, actions);
    }
    var version := StampVersion(baseVersion.value, versionHashDigest, "release" in args);
    actions := actions + [WriteFile(VersionTarget, version)];
    return Built(actions, version);
  }

  /**
   * One run of the script: the command line alone decides whether anything
   * happens, and only a build that proceeds touches the file system, exactly
   * as `BuildWith` describes for the named options. `argv` is the argument
   * list without the program name, `sys.argv[1:]`.
   */
  method RunBuild(argv: seq<string>, outExists: bool, files: seq<SourceFile>, baseVersion: Option<string>,
                  eval: Evaluator, sha: Hasher) returns (r: Outcome)
    requires forall i :: 0 <= i < |files| ==> Paths.UnderSrc(files[i].path)
    ensures r.UsageError? <==> Gate(argv).Usage?
    ensures r.UsageError? ==> r.unrecognized == Gate(argv).unrecognized
    ensures r.HelpShown? <==> Gate(argv).Help?
    ensures r.ExitStatus() == 0 <==> r.HelpShown? || r.Built?
    ensures Gate(argv).ExitStatus().Some? ==> r.ExitStatus() == Gate(argv).ExitStatus().value
    ensures Gate(argv).Proceed? ==> r.Failed? || r.Built?
    ensures Gate(argv).Proceed? && r.Failed? ==>
              r.actions == Cleanup(Gate(argv).options, outExists) + WriteActions(Process(files, eval).writes)
    ensures Gate(argv).Proceed? ==>
              (r.Failed? && r.error.EvaluationError? <==> Process(files, eval).Aborted?)
    ensures Gate(argv).Proceed? && r.Failed? && r.error.EvaluationError? ==>
              r.error == EvaluationError(Process(files, eval).path, Process(files, eval).message)
    ensures Gate(argv).Proceed? ==>
              (r.Failed? && r.error.VersionFileMissing? <==> Process(files, eval).Running? && baseVersion.None?)
    ensures Gate(argv).Proceed? ==>
              (r.Built? <==> Process(files, eval).Running? && baseVersion.Some?
                             && (files != [] || (outExists && "clean" !in Gate(argv).options)))
    ensures r.Built? ==>
              && Gate(argv).Proceed?
              && baseVersion.Some?
              && r.version == VersionString(baseVersion.value, sha(HashInput(Digests(files, sha))),
                                            "release" in Gate(argv).options)
              && r.actions == Cleanup(Gate(argv).options, outExists) + WriteActions(Process(files, eval).writes)
                              + [WriteFile(VersionTarget, r.version)]
  {
    var gate := Gate(argv);
    match gate
    case Usage(nonsense) =>
      r := UsageError(nonsense);
    case Help =>
      r := HelpShown;
    case Proceed(args) =>
      r := BuildWith(args, outExists, files, baseVersion, eval, sha);
  }
}
