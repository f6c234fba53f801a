/** `compile_sketch` on a loaded project record: validate the record, build
    the commands it asks for, run them through the gate chain. */
module Orchestrator {
  import opened Wrappers
  import opened PyStrings
  import opened Packages
  import opened Toolchain
  import opened Artifact
  import opened Gates

  /** The `target` entry of the project file. */
  datatype Target = Target(board: Option<string>, url: Option<string>, core: Option<string>)

  /** The project file after loading; an absent key is `None`. */
  datatype ProjectSpec = ProjectSpec(
    sketch: Option<string>,
    target: Option<Target>,
    libraries: Option<seq<string>>,
    version: Option<string>)

  /** The record carries everything `compile_sketch` requires. */
  predicate Validated(spec: ProjectSpec) {
    spec.sketch.Some? && spec.target.Some? && spec.target.value.board.Some?
  }

  function CoreCommand(core: string): Command {
    CoreInstall(InstallArgument(ParseVersion(core)))
  }

  function LibraryCommand(lib: string): Command {
    LibInstall(InstallArgument(ParseVersion(lib)))
  }

  /** `arduino-cli compile -b <board> -o dist/<output name> <sketch>`. */
  function CompileCommand(sketch: string, board: string, version: Option<string>, stamp: string): (c: Command)
    ensures c.Compile? && c.board == board && c.sketch == sketch
    ensures OutputDir <= c.output && c.output[|OutputDir|..] == OutputName(sketch, version, stamp)
  {
    Compile(board, OutputDir + OutputName(sketch, version, stamp), sketch)
  }

  /** The library installs for a `libraries` list, in list order. */
  function LibraryCommands(libs: seq<string>): (cs: seq<Command>)
    ensures |cs| == |libs|
    ensures forall k :: 0 <= k < |libs| ==> cs[k] == LibraryCommand(libs[k])
    ensures forall k :: 0 <= k < |cs| ==> cs[k].LibInstall?
  {
    if libs == [] then [] else [LibraryCommand(libs[0])] + LibraryCommands(libs[1..])
  }

  /** The validation checks in source order, then the commands the record
      asks for. */
  function Plan(spec: ProjectSpec, stamp: string): (r: Result<Steps, Halt>)
    ensures r.Failure? <==> !Validated(spec)
    ensures spec.sketch.None? ==> r == Failure(MissingSketch)
    ensures spec.sketch.Some? && spec.target.None? ==> r == Failure(MissingTarget)
    ensures spec.sketch.Some? && spec.target.Some? && spec.target.value.board.None? ==> r == Failure(MissingBoard)
    ensures r.Success? ==> WellFormed(r.value)
  {
    if spec.sketch.None? then Failure(MissingSketch)
    else if spec.target.None? then Failure(MissingTarget)
    else if spec.target.value.board.None? then Failure(MissingBoard)
    else
      var target := spec.target.value;
      Success(Steps(
        if target.url.Some? then [UpdateIndex(target.url.value)] else [],
        if target.core.Some? then Some(CoreCommand(target.core.value)) else None,
        LibraryCommands(spec.libraries.GetOr([])),
        CompileCommand(spec.sketch.value, target.board.value, spec.version, stamp)))
  }

  /** One run of `compile_sketch`, with the toolchain's answers `ok` and
      the formatted build time `stamp`. */
  function CompileSketch(spec: ProjectSpec, ok: Outcomes, stamp: string): (r: Run)
    ensures r.trace == [] <==> !Validated(spec)
    ensures spec.sketch.None? ==> r.halt == MissingSketch
    ensures spec.sketch.Some? && spec.target.None? ==> r.halt == MissingTarget
    ensures spec.sketch.Some? && spec.target.Some? && spec.target.value.board.None? ==> r.halt == MissingBoard
    ensures Ordered(r.trace)
    ensures NothingAfterFailure(r.trace, ok)
    ensures ExitStatus(r.halt) == 0 <==> r.trace != [] && r.trace[|r.trace| - 1].Compile?
    ensures r.halt == CoreInstallFailed ==> r.trace[|r.trace| - 1].CoreInstall? && !ok(r.trace[|r.trace| - 1])
    ensures r.halt.LibraryInstallFailed? ==> r.trace[|r.trace| - 1].LibInstall? && !ok(r.trace[|r.trace| - 1])
    ensures r.halt.Completed? ==> r.halt.compiled == ok(r.trace[|r.trace| - 1])
  {
    match Plan(spec, stamp)
    case Failure(h) => Run([], h)
    case Success(steps) =>
      ExecuteOrdered(steps, ok);
      ExecuteGates(steps, ok);
      Execute(steps, ok)
  }

  /** A run that exits with status 1 never reaches the compile command. */
  lemma FailedRunNeverCompiles(spec: ProjectSpec, ok: Outcomes, stamp: string)
    ensures var r := CompileSketch(spec, ok, stamp);
      ExitStatus(r.halt) == 1 ==> forall i :: 0 <= i < |r.trace| ==> !r.trace[i].Compile?
  {
    CompileOnlyLast(CompileSketch(spec, ok, stamp).trace);
  }

  /** The index update, when a URL is given, is the first command of a
      validated run; without a URL no index update is issued. */
  lemma IndexRegistrationFirst(spec: ProjectSpec, ok: Outcomes, stamp: string)
    requires Validated(spec)
    ensures var r := CompileSketch(spec, ok, stamp); var url := spec.target.value.url;
      && (url.Some? ==> r.trace[0] == UpdateIndex(url.value))
      && (url.None? ==> forall i :: 0 <= i < |r.trace| ==> !r.trace[i].UpdateIndex?)
  {
    var steps := Plan(spec, stamp).value;
    ExecuteIndexFirst(steps, ok);
  }

  /** The core is installed exactly when the record names one, with the
      argument the dependency rule gives, and only its failure ends the run
      as a failed core install. */
  lemma CoreInstallStep(spec: ProjectSpec, ok: Outcomes, stamp: string)
    requires Validated(spec)
    ensures var r := CompileSketch(spec, ok, stamp); var core := spec.target.value.core;
      && (core.None? ==> r.halt != CoreInstallFailed && forall i :: 0 <= i < |r.trace| ==> !r.trace[i].CoreInstall?)
      && (core.Some? ==> CoreCommand(core.value) in r.trace)
      && (core.Some? ==> (r.halt == CoreInstallFailed <==> !ok(CoreCommand(core.value))))
  {
    var steps := Plan(spec, stamp).value;
    ExecuteCore(steps, ok);
  }

  /** The library installs of a run are the `libraries` list's installs in
      list order, cut off right after the first failure; a run that
      completes installed all of them. */
  lemma LibrariesInListOrder(spec: ProjectSpec, ok: Outcomes, stamp: string)
    requires Validated(spec)
    ensures var r := CompileSketch(spec, ok, stamp);
      var cs := LibraryCommands(spec.libraries.GetOr([]));
      var ls := LibraryInstalls(r.trace);
      && ls <= cs
      && (r.halt == CoreInstallFailed ==> ls == [])
      && (r.halt.Completed? ==> ls == cs)
      && (r.halt.LibraryInstallFailed? ==> |ls| == r.halt.index + 1 && !ok(ls[r.halt.index]))
      && (forall j :: 0 <= j < |ls| && (r.halt.LibraryInstallFailed? ==> j < r.halt.index) ==> ok(ls[j]))
  {
    var steps := Plan(spec, stamp).value;
    ExecuteLibraryInstalls(steps, ok);
  }

  /** A validated run completes exactly when the core install, if any, and
      every library install succeed; it then ends with the compile command
      for the board, the sketch and the output file under `dist/`. */
  lemma CompletedRun(spec: ProjectSpec, ok: Outcomes, stamp: string)
    requires Validated(spec)
    ensures var r := CompileSketch(spec, ok, stamp);
      var core := spec.target.value.core;
      var libs := spec.libraries.GetOr([]);
      && (r.halt.Completed? <==>
           (core.None? || ok(CoreCommand(core.value))) &&
           forall k :: 0 <= k < |libs| ==> ok(LibraryCommand(libs[k])))
      && (r.halt.Completed? ==>
           r.trace[|r.trace| - 1] ==
             Compile(spec.target.value.board.value,
                     OutputDir + OutputName(spec.sketch.value, spec.version, stamp),
                     spec.sketch.value))
  {
    var steps := Plan(spec, stamp).value;
    ExecuteCompletes(steps, ok);
  }

  /** With a toolchain that accepts everything, a validated run exits 0
      after issuing every step once: the index update if a URL is given,
      the core install if a core is given, one install per library, one
      compile. */
  lemma AllStepsSucceed(spec: ProjectSpec, ok: Outcomes, stamp: string)
    requires Validated(spec)
    requires forall c :: ok(c)
    ensures var r := CompileSketch(spec, ok, stamp);
      && ExitStatus(r.halt) == 0
      && var target := spec.target.value;
         r.trace == (if target.url.Some? then [UpdateIndex(target.url.value)] else [])
                    + (if target.core.Some? then [CoreCommand(target.core.value)] else [])
                    + LibraryCommands(spec.libraries.GetOr([]))
                    + [CompileCommand(spec.sketch.value, target.board.value, spec.version, stamp)]
  {
    var steps := Plan(spec, stamp).value;
    ExecuteCompletes(steps, ok);
  }

  /** The answer to the index update is never consulted: two toolchains
      that differ only there produce the same run. */
  lemma IndexOutcomeIgnored(spec: ProjectSpec, ok1: Outcomes, ok2: Outcomes, stamp: string)
    requires forall c: Command :: !c.UpdateIndex? ==> ok1(c) == ok2(c)
    ensures CompileSketch(spec, ok1, stamp) == CompileSketch(spec, ok2, stamp)
  {
    if Validated(spec) {
      ExecuteAgree(Plan(spec, stamp).value, ok1, ok2);
    }
  }

  /** The answer to the compile command changes neither the commands
      issued nor the exit status. */
  lemma CompileOutcomeIgnored(spec: ProjectSpec, ok1: Outcomes, ok2: Outcomes, stamp: string)
    requires forall c: Command :: !c.Compile? ==> ok1(c) == ok2(c)
    ensures var r1 := CompileSketch(spec, ok1, stamp); var r2 := CompileSketch(spec, ok2, stamp);
      r1.trace == r2.trace && ExitStatus(r1.halt) == ExitStatus(r2.halt)
  {
    if Validated(spec) {
      ExecuteIgnoresCompile(Plan(spec, stamp).value, ok1, ok2);
    }
  }

  /** Worked example: a failing first library. With libraries `A==1.0` and `B`, where
      installing `A` fails, the run stops with status 1 before `B`. */
  lemma FailingLibraryStopsRun(stamp: string)
    ensures var spec := ProjectSpec(Some("blink.ino"), Some(Target(Some("arduino:avr:uno"), None, None)),
                                    Some(["A==1.0", "B"]), None);
      var r := CompileSketch(spec, (c: Command) => c != LibInstall("A@1.0"), stamp);
      && r.trace == [LibInstall("A@1.0")]
      && r.halt == LibraryInstallFailed(0)
      && ExitStatus(r.halt) == 1
  {
    var p := Package("A", Some("1.0"));
    forall j ensures !OccursAt(p.name, Separator, j) {
    }
    assert Unparse(p) == "A==1.0";
    ParseUnparse(p);
    assert LibraryCommand("A==1.0") == LibInstall("A@1.0");
    var cs := LibraryCommands(["A==1.0", "B"]);
    assert cs[0] == LibInstall("A@1.0");
  }
}
