# KTRules build script, modelled in Dafny

`build.py` turns a source tree of Kill Team rule data into a distributable
`out` tree. The model covers the script's single entry point, `main()`:

- **Command line.** Every argument has all its `-` characters removed. If a
  name is not one of `release`, `clean`, `verbose` and `help`, the script
  prints usage and exits with status 1. If every name is known and `help` is
  among them, it prints usage and returns, so nothing is built. Otherwise it
  builds with the named options.
- **Clean-up.** With `clean`, an existing `out` directory is removed first.
- **Per-file loop.** The loop runs over every `src/**/*.json*` file, in
  traversal order:
  - the digest of the file's raw text is stored in an insertion-ordered
    dictionary, keyed by the source path;
  - a `.jsonnet` template is evaluated by the Jsonnet evaluator and any other
    file is copied unchanged;
  - the result goes to the mirrored path, which has `out` for the first `src`
    and drops the `net` of `.jsonnet`.
  - A template the evaluator rejects stops the build, and the files already
    written stay in place.
- **Version stamp.** One summary line `path + " " + digest + "\n"` is made per
  dictionary entry, in order, and one SHA-256 is taken over all of them. The
  stripped text of `src/version.txt`, a hyphen and that aggregate digest form
  the version. Unless the build is a release, `-dev` is appended. The version
  is written to `out/version.txt`.

The modules follow those steps:
- `PyStr`: the Python string operations the script relies on.
- `Options`: the command-line check.
- `Paths`: classification and output paths.
- `Pipeline`: the per-file loop and the digest dictionary.
- `Stamp`: the aggregate digest and the version string.
- `Build`: `main()` as a whole.

The Jsonnet evaluator and SHA-256 are parameters of type `Evaluator` and
`Hasher`. Feeding a hash object line by line gives the digest of the
concatenated lines, so the aggregate digest is `sha` applied to that
concatenation. Changes to the file system come back as a list of `Action`s in
the order the script makes them. The traversal order and the file texts are
inputs. Whether `out` exists beforehand and the text of `src/version.txt`
(when it can be opened) are inputs as well.

A build of N data files and M templates need not write N+M outputs: `x.json`
next to `x.jsonnet` both go to `out/x.json`, and the later write wins.
- `Paths.OutPathCollision` proves that this is the only way two sources can
  share an output;
- `Pipeline.OneOutputPerFile` proves the N+M count when it does not happen.

A less obvious failure follows from the code. When no file
matches, nothing creates `out`, so creating `out/version.txt` fails if `out`
is missing at that point. That happens when `out` did not exist beforehand,
and also after a `clean` build has removed it. This is `OutDirMissing`.

The files under `out` after a build are the files this run writes, plus,
without `clean`, whatever an earlier build left there. `Pipeline.Tree` is the
part this run writes.

## Model

| member | source | states |
|---|---|---|
| PyStr.RemoveAll | build.py:14 | `replace("-", "")` leaves no dash, never lengthens, leaves a dash-free token alone, and keeps every other character with its multiplicity |
| Options.Canonical | build.py:14 | an option name contains no dash, and a token without dashes is its own name |
| Options.LeadingDashesIgnored | build.py:13-14 | any number of leading dashes gives the same name (`--clean`, `-clean`, `clean`) |
| Options.InnerDashIgnored | build.py:13-14 | a dash inside a token is dropped as well |
| Options.GateDecision | build.py:14-28 | usage error with status 1 iff some token names no known option, listing exactly the unknown names; help with status 0 and no build iff all names are known and one is `help`; otherwise the build proceeds with exactly the named options, all known, without `help` |
| Options.GateSameNames | build.py:14-18 | two command lines naming the same options get the same decision |
| Options.GateIgnoresOrder | build.py:14-18 | two command lines with the same tokens, in any order and repeated any number of times, get the same decision |
| Options.GateIgnoresDashes | build.py:13-18 | adding leading dashes to any tokens does not change the decision |
| PyStr.Find | build.py:48 | the leftmost occurrence of the pattern, or none when it occurs nowhere |
| PyStr.ReplaceFirstAtFront | build.py:48 | `replace("src", "out", 1)` on a path starting with `src` swaps exactly that prefix |
| PyStr.DropLast | build.py:50 | `[0:-3]` removes exactly the last three characters (everything when shorter) |
| Paths.OutPathMirrors | build.py:45-50 | `src` + rest goes to `out` + rest for a copied file; a template goes to the same minus the final `net`, ends in `.json` and is no template itself; every output lies under `out/` |
| Paths.SameKindNoCollision | build.py:45-50 | two templates, or two copied files, with the same output path are the same source |
| Paths.MixedKindCollision | build.py:45-50 | a template and a copied file share an output iff the template's name is the file's name plus `net` |
| Paths.TemplatePlusNet | build.py:45 | a name that becomes a template by appending `net` is not a template itself |
| Paths.OutPathCollision | build.py:45-50 | distinct sources share an output path iff one is the other plus `net` and is a template |
| Paths.JsonNextToJsonnet | build.py:45-50 | `x.json` and `x.jsonnet` are both written to `out/x.json` |
| Pipeline.Put | build.py:61 | the dictionary grows by one entry exactly when the key is new |
| Pipeline.PutKeys | build.py:61 | an existing key keeps its place and a new key goes last |
| Pipeline.PutKeepsDistinct | build.py:61 | keys that were distinct stay distinct |
| Pipeline.PutNewKey | build.py:61 | a new key is appended with its value after all earlier entries |
| Pipeline.PutGet | build.py:61 | after the assignment the key maps to the new value and every other key to what it mapped to before |
| Pipeline.RunPipeline | build.py:40-72 | the loop's writes, or the template where it stopped, are those of `Process`; on completion the dictionary is `Digests` of the files in traversal order |
| Pipeline.AbortIsFinal | build.py:64-65 | once a template is rejected, later files change nothing |
| Pipeline.ProcessCompletes | build.py:43-72 | the loop completes iff the evaluator accepts every template |
| Pipeline.ProcessWrites | build.py:43-72 | a complete run writes once per file, in order, to the file's output path: the evaluator's output for a template, the file's text unchanged otherwise |
| Pipeline.ProcessAborts | build.py:64-65 | a stopped run stopped at a template the evaluator rejected, with that error; every earlier file was written and nothing after it |
| Pipeline.DigestsInOrder | build.py:56-61 | over distinct paths, entry i is the source path of file i with the digest of its raw text, whatever the evaluator does |
| Pipeline.PutNewPath | build.py:61 | a file with a path not yet present adds its entry at the end of the dictionary |
| Pipeline.DigestOfLastRead | build.py:61 | the dictionary's keys are distinct, and a path maps to the digest of the last file read under it |
| Pipeline.TreeKeys | build.py:70-72 | the files this run writes under `out` are exactly the paths of its writes |
| Pipeline.TreeOfDistinctWrites | build.py:70-72 | writes to distinct paths leave one file per write, each holding the text written to it |
| Pipeline.OneOutputPerFile | build.py:43-72 | without an `x.json`/`x.jsonnet` pair, a complete run writes exactly one output per source file, and a copied file's output holds its text |
| Stamp.AggregateDigest | build.py:74-81 | the digest is SHA-256 of the concatenated summary lines, in dictionary order |
| Stamp.HashInputAppend | build.py:76-80 | one more entry appends exactly its summary line to the hash input |
| Stamp.LineSplit | build.py:77 | with newline-free paths and hex digests, a summary line can be read back into its entry |
| Stamp.HashInputInjective | build.py:76-80 | with newline-free paths and hex digests, the hash input determines the dictionary |
| Stamp.ContentChangeChangesHashInput | build.py:56-81 | over the same paths, a file whose text has a different digest gives a different aggregate hash input |
| Stamp.StampVersion | build.py:84-94 | the version built step by step is the stripped base, `-`, the aggregate, and `-dev` unless releasing |
| PyStr.Strip | build.py:87 | `strip()` leaves no white space at either end, never lengthens, and leaves untouched text with no white space at its ends |
| PyStr.StripKeepsMiddle | build.py:87 | what `strip()` keeps is one contiguous piece, and all it drops is white space |
| PyStr.StripIdempotent | build.py:87 | stripping twice is stripping once |
| Stamp.VersionInjective | build.py:87-94 | with hex digests, equal versions have equal stripped bases, equal aggregate digests and the same release flag |
| Stamp.PartsInjective | build.py:90-94 | stem, hyphen, hex digest and `-dev` or nothing split back into their parts |
| Stamp.DevIsReleasePlusSuffix | build.py:92-94 | a development version is the release version plus `-dev` |
| Stamp.DevSuffixIffNotRelease | build.py:92-94 | with a hex aggregate digest, the version ends in `-dev` iff the build is not a release |
| Build.BuildWith | build.py:33-101 | the clean-up, then the loop's writes, in that order:<br>- evaluation error iff the evaluator rejects a template, naming that template and the evaluator's message;<br>- missing version file iff the loop completed and `src/version.txt` cannot be opened;<br>- otherwise built iff some file was written or `out` survives, with `out/version.txt` written last |
| Build.RunBuild | build.py:12-101 | a usage error or help iff the command-line check says so, with no action and the check's exit status; exit status 0 only for help and a complete build; a build that proceeds has the outcome `BuildWith` gives for the named options: when it fails, with which error, what it wrote, and when it completes, with the clean-up, the writes and the stamped version |
| Options.Normalize | build.py:14 | the set of option names the tokens give, each token with its dashes removed |
| Options.Gate | build.py:14-28 | the decision of the command-line check: usage error on unknown names, else help, else proceed |
| Paths.IsTemplate | build.py:45 | a file is compiled exactly when its name ends with `.jsonnet` |
| Paths.OutPath | build.py:47-50 | the output path: first `src` replaced by `out`, and the final `net` dropped for a template |
| PyStr.ReplaceFirst | build.py:48 | `replace(target, replacement, 1)` at the leftmost occurrence, the string unchanged when there is none |
| PyStr.EndsWith | build.py:45 | `endswith` |
| PyStr.TrimStart | build.py:87 | leading white space goes and nothing else: the longest suffix not starting with white space |
| PyStr.TrimEnd | build.py:87 | trailing white space goes and nothing else: the longest prefix not ending with white space |
| Pipeline.Digests | build.py:56-61 | the dictionary after `hashes[file] = digest` for each file in traversal order |
| Pipeline.Output | build.py:63-67 | the evaluator's result for a template, the file's own text otherwise |
| Pipeline.Process | build.py:43-72 | the writes of the loop, or where and why it stopped |
| Pipeline.Tree | build.py:70-72 | the files this run leaves under `out`: a later write to a path replaces an earlier one |
| Stamp.SummaryLine | build.py:77 | `file + " " + digest + "\n"` |
| Stamp.HashInput | build.py:76-80 | all summary lines, in dictionary order |
| Stamp.VersionString | build.py:87-94 | the stripped base, `-`, the aggregate, and `-dev` unless releasing |
| Build.Cleanup | build.py:34-37 | `out` is removed exactly when `clean` is asked for and `out` exists |
| PyStr.IsSpace | build.py:87 | the characters `str.isspace()` accepts, which `strip()` removes |
| Options.Recognized | build.py:17 | the four option names the script knows |
| Options.Gating.ExitStatus | build.py:25-28 | status 1 for a usage error, 0 for help, none yet for a build that proceeds |
| Build.Outcome.ExitStatus | build.py:25-28 | status 1 for a usage error or a build stopped by an exception, 0 for help and a complete build |
| Paths.UnderSrc | build.py:43 | the paths `glob.iglob("src/**/*.json*")` yields start with `src/` |
| Stamp.IsHexDigest | build.py:61 | what `hexdigest()` of SHA-256 returns: 64 lower-case hexadecimal digits |

## Left out

- File-system reads and writes, `os.chdir`, `os.makedirs`, `shutil.rmtree` and the glob traversal are left out. Their effects are an input (the files in traversal order, whether `out` exists, the version file's text) or an output (the list of `Action`s).
- The order in which `glob.iglob` yields files is not modelled: every statement holds for any order given.
- Each file's text is taken as already read. Decoding with the locale's preferred encoding, its errors and newline translation in text mode happen before the model. Only the hashing encodes text as UTF-8. I/O errors other than a missing `src/version.txt` or `out` directory are not modelled.
- The Jsonnet evaluator's behaviour is a parameter (`Evaluator`). Its internals are not part of this model.
- SHA-256's internals are a parameter (`Hasher`). Streaming `update` calls is modelled as hashing the concatenation, and the UTF-8 encoding before hashing is folded into the parameter.
- The printed output is left out: the usage text, the verbose logging and the message of the exception that stops a build. `verbose` is accepted as an option and changes nothing else.
- `sys.exit` and the exception that ends a failed build are modelled as the exit status of an `Outcome`.
- Stamp.ContentChangeChangesHashInput: the statement is about the hash input, not the version. A different version also needs SHA-256 to map different inputs to different digests, which the model does not assume.
