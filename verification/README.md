# arduino-cli build script, modelled in Dafny

The repository is one Python script, `compile.py`, that builds an Arduino
sketch in a container. It reads a project record (`sketch`, `target` with
`board`, `url` and `core`, `libraries`, `version`). It optionally registers an
extra board-package index and installs the core. It installs the libraries in
order and then runs `arduino-cli compile`. The firmware goes to
`dist/<stem>[_v<version>]_<YYYYMMDD_HHMMSS>Z.bin`.

The model has two parts:

- **String helpers** (`pystrings.dfy`, `packages.dfy`, `artifact.dfy`). These
  are the Python string operations the script uses. They are `pat in s`,
  `s.split(sep, 1)`, `s.strip()`, `s.split(".")[0]` and `s.replace(".", "_")`.
  The dependency parser `_parse_version` is built on them. So are the
  `name@version` install argument and the output file name.
- **The gate chain** (`toolchain.dfy`, `gates.dfy`, `orchestrator.dfy`).
  `compile_sketch` becomes a pure function `CompileSketch(spec, ok, stamp)`.
  Its inputs are the loaded project record, a toolchain oracle
  `ok: Command -> bool` and the formatted build time. It returns the commands
  issued, in order, and how the run ended. `Plan` does the three validation
  checks and builds the commands the record asks for. `Execute` then runs them
  through the gates. The commands are pure values, so building them before the
  first install changes nothing. `ExitStatus` maps the end of a run to the
  process exit status: every early `sys.exit(1)` gives 1, and returning to
  `__main__` gives 0.

Three behaviours of `compile_sketch` that are easy to misread, modelled as the script has them:

- A dependency name is stripped only when the line has no `==`, so
  `"foo == 1.0"` gives the name `"foo "` and the version `" 1.0"`.
- A failed compile still ends in exit status 0, because `compile_sketch`
  returns normally and `__main__` calls `sys.exit(0)`.
- The build time comes from the local clock, although the name labels it `Z`.

The extension cut is at the first `.` anywhere in the sketch path, directories
included. So `./src/blink.ino` has the stem `` (empty) and `a.b/c.ino` has the stem `a`.

## Model

| member | source | states |
|---|---|---|
| PyStrings.Find | compile.py:62 | `pat in s`: no result exactly when `pat` occurs nowhere; otherwise the leftmost index where it occurs |
| PyStrings.SplitOnce | compile.py:63 | `split(sep, 1)`: when `sep` occurs, head + sep + tail rebuilds the line and the head contains no earlier start of `sep`; no result when `sep` is absent |
| PyStrings.Strip | compile.py:65 | `strip()`: the result is a slice of the input with only whitespace removed around it, and it neither starts nor ends with whitespace |
| PyStrings.StripUnique | compile.py:65 | that stripping rule has exactly one solution, so it pins down `Strip` completely |
| PyStrings.StripIdempotent | compile.py:65 | stripping twice is stripping once |
| PyStrings.Head | compile.py:49 | `split(".")[0]`: a prefix of the path holding no `.`, followed in the path by `.` or by nothing |
| PyStrings.ReplaceChar | compile.py:51 | `replace(".", "_")`: same length, each `.` becomes `_`, every other character kept, no `.` left |
| Packages.ParseVersion | compile.py:61-66 | a version is present exactly when the line contains `==`; then name + `==` + version is the line and the name has no earlier `==`, with no trimming; otherwise the name is the stripped line |
| Packages.InstallArgument | compile.py:73-80 | the argument starts with the name; it is the name alone exactly when there is no version, and otherwise continues with `@` and the version; InstallArgumentOfLine ties it back to the dependency line |
| Packages.InstallArgumentOfLine | compile.py:73-80 | the install argument is the dependency line with its first `==` replaced by `@`, or the stripped line when there is none; core and library share this one rule |
| Packages.ParseUnparse | compile.py:61-66 | a package whose name has no `==`, does not end in `=` and (without a version) has no surrounding whitespace reads back unchanged from `name==version` or `name` |
| Packages.ParseVersionedExample | compile.py:61-66 | `foo==1.2.3` parses to name `foo`, version `1.2.3` |
| Packages.ParseBareExample | compile.py:61-66 | `foo` parses to name `foo` with no version |
| Packages.ParsePaddedExample | compile.py:61-66 | ` foo ` parses to name `foo` with no version |
| Toolchain.ParseArgv | compile.py:69-88 | any argument vector it accepts is exactly the vector the script builds for that command |
| Toolchain.Argv | compile.py:69-88 | every vector starts with `arduino-cli`, has at least four entries and ends with the command's operand (URL, package or sketch path); ParseArgvInvertsArgv and ArgvInjective show it loses nothing |
| Toolchain.ParseArgvInvertsArgv | compile.py:69-88 | every command's argument vector reads back as that command |
| Toolchain.ArgvInjective | compile.py:69-88 | distinct commands reach `arduino-cli` as distinct argument vectors |
| Artifact.VersionTag | compile.py:50-51 | empty exactly when there is no version; otherwise `_v` then the version with each `.` turned into `_`, and no `.` anywhere |
| Artifact.OutputName | compile.py:49-54 | the name splits into the sketch stem, the version segment, and `_` + timestamp + `Z.bin` |
| Artifact.OutputNameSingleDot | compile.py:49-54 | with a well-formed timestamp the only `.` in the name is the one before `bin`, so the stem rule applied to the name gives it back without `.bin` |
| Artifact.HeadBeforeOnlyDot | compile.py:49 | when the first `.` is at index i, the stem is the first i characters |
| Artifact.OutputNameStamp | compile.py:52-53 | the timestamp can be read back from a fixed position at the end of the name |
| Artifact.OutputNameSeparatesStamps | compile.py:52-53 | builds of the same sketch and version at different seconds get different names |
| Artifact.BlinkUnversioned | compile.py:49-54 | `blink.ino` without a version is named `blink_<stamp>Z.bin` |
| Artifact.BlinkVersioned | compile.py:49-54 | `blink.ino` at version `1.0.2` is named `blink_v1_0_2_<stamp>Z.bin` |
| Gates.RunUntilFailure | compile.py:40-47 | gated steps: the commands issued are a prefix of the list; all of it when none fails; otherwise they stop at the first failing command, which is last and the only one that failed |
| Gates.Execute | compile.py:28-58 | the index update, if any, comes first and is always followed by another command; a run ends in a failed core install, a failed library install, or completion |
| Gates.ExitStatus | compile.py:14-47 | status 0 exactly for a completed run and 1 for every early `sys.exit(1)`, with `__main__`'s `sys.exit(0)` at compile.py:105 after a normal return; the exit clause of CompileSketch ties status 0 to the compile command being issued |
| Gates.OrderedConcat | compile.py:28-57 | two step-ordered traces joined at an in-order seam stay step-ordered |
| Gates.OrderedLayout | compile.py:28-57 | index update, core install, library installs, compile, in that order, form a step-ordered trace |
| Gates.OrderedPairwise | compile.py:28-57 | in a step-ordered trace every later command belongs to a later step, except that library installs repeat |
| Gates.ExecuteOrdered | compile.py:28-57 | the commands of a run come in step order |
| Gates.ExecuteIndexFirst | compile.py:28-29 | after the index update no further index update is issued |
| Gates.ExecuteGates | compile.py:34-58 | every command before the last succeeded, index updates excepted; a failed install is the last command; the run completes exactly when its last command is the compile, and records that command's answer |
| Gates.CompileOnlyLast | compile.py:57 | in a step-ordered trace a compile command can only be last |
| Gates.ExecuteCore | compile.py:30-37 | the core is installed right after the index update exactly when a core step exists; the run ends as a failed core install exactly when that install fails |
| Gates.ExecuteCompletes | compile.py:30-58 | a run completes exactly when the core install, if any, and every library install succeed, and it then ends with the compile command |
| Gates.LibraryInstallsConcat | compile.py:39-47 | picking out the library installs distributes over concatenation |
| Gates.InstallsBetween | compile.py:39-58 | a trace of non-library commands, library installs, then non-library commands has exactly those installs as its library installs |
| Gates.ExecuteLibraryInstalls | compile.py:30-47 | the run's library installs are a prefix of the listed ones: none after a core failure, all on completion, and on a library failure exactly up to the failing one, with every earlier one successful |
| Gates.RunUntilFailureAgree | compile.py:40-47 | two toolchains that answer the listed commands alike produce the same gated run |
| Gates.ExecuteAgree | compile.py:28-58 | two toolchains that agree on the core, library and compile commands produce the same run, whatever they answer to the index update |
| Gates.ExecuteIgnoresCompile | compile.py:57-58 | the compile command's answer changes neither the commands issued nor the exit status |
| Orchestrator.LibraryCommands | compile.py:40-44 | one library install per list entry, in list order, each with the shared install-argument rule |
| Orchestrator.CompileCommand | compile.py:49-58 | a compile for the given board and sketch whose output path is `dist/` followed by the output name; CompletedRun shows it is the last command of every completed run |
| Orchestrator.Plan | compile.py:12-26 | validation fails exactly when `sketch`, `target` or `target.board` is missing; `sketch` is checked first, then `target`, then `board`; otherwise every step holds commands of its own kind |
| Orchestrator.CompileSketch | compile.py:8-58 | no command is issued exactly when `sketch`, `target` or `target.board` is missing, and the missing field is reported in source order; commands come in step order; every command before the last succeeded, index updates excepted; exit 0 exactly when the compile command was issued; a failed core or library install is the last command |
| Orchestrator.FailedRunNeverCompiles | compile.py:36-47 | a run that exits with status 1 issued no compile command |
| Orchestrator.IndexRegistrationFirst | compile.py:28-29 | with a `url` the index update is the first command; without one no index update is issued |
| Orchestrator.CoreInstallStep | compile.py:30-37 | the core is installed exactly when one is named, with the parsed `name@version` argument; the run ends as a failed core install exactly when that install fails |
| Orchestrator.LibrariesInListOrder | compile.py:39-47 | the run's library installs are a prefix of the `libraries` list's installs in list order; none after a core failure; all of them on completion; on a library failure, exactly up to the failing one, which failed, and every one before it succeeded |
| Orchestrator.CompletedRun | compile.py:30-58 | a validated run completes exactly when the core install, if any, and every library install succeed; it then ends with `arduino-cli compile -b <board> -o dist/<output name> <sketch>` |
| Orchestrator.AllStepsSucceed | compile.py:28-58 | with a toolchain that accepts everything, the run exits 0 and its commands are exactly the index update (when a `url` is given), the core install (when a `core` is given), one install per library in list order, and the compile |
| Orchestrator.IndexOutcomeIgnored | compile.py:28-29 | toolchains that differ only on index updates produce the same run |
| Orchestrator.CompileOutcomeIgnored | compile.py:57-58 | toolchains that differ only on the compile command produce the same commands and the same exit status |
| Orchestrator.FailingLibraryStopsRun | compile.py:39-47 | libraries `A==1.0`, `B` with `A@1.0` failing: only `A@1.0` is attempted, and the run exits 1 |

## Left out

- Process execution in `_run_shell_command` is replaced by the oracle `ok`. With `check=True` a non-zero exit raises `CalledProcessError`, which nothing catches, so in practice the script never sees a `False`. That raise, and the traceback exit it causes, are not modelled.
- A missing `arduino-cli` binary raises `FileNotFoundError`. That is an `IOError`, so `__main__` reports it as a missing `project.yaml`. This runtime path is not modelled.
- Console output is not modelled: progress lines and the forwarded stdout/stderr are advisory only.
- `os.makedirs("dist/", exist_ok=True)` is not modelled, because it is a filesystem side effect. Only the `dist/` prefix of the `-o` argument is.
- Opening and YAML-parsing `project.yaml` is not modelled, and neither are its `IOError`/`YAMLError` exits. This is file I/O and an external parser. The model starts from the loaded record.
- Values of the wrong Python type are not modelled: a numeric `version`, a null field, or a `target` that is a string. The record is typed: every present field is a string, or a list of strings for `libraries`.
- `datetime.now().strftime(...)` is not modelled, because it reads the clock. The formatted timestamp is a parameter, and `IsTimestamp` describes its shape where a lemma needs it.
