/** The four `arduino-cli` invocations the build script issues, and the
    argument vectors it passes to the process runner. */
module Toolchain {
  import opened Wrappers

  const Cli: string := "arduino-cli"

  datatype Command =
    | UpdateIndex(url: string)
    | CoreInstall(package: string)
    | LibInstall(package: string)
    | Compile(board: string, output: string, sketch: string)

  /** Whether the toolchain reports success for a command. Real process
      execution is outside the model; a run is parameterised by one. */
  type Outcomes = Command -> bool

  /** The argument vector handed to the process runner for a command. */
  function Argv(c: Command): (argv: seq<string>)
    ensures 4 <= |argv| && argv[0] == Cli
    ensures argv[|argv| - 1] == (match c
      case UpdateIndex(url) => url
      case CoreInstall(p) => p
      case LibInstall(p) => p
      case Compile(_, _, sketch) => sketch)
  {
    match c
    case UpdateIndex(url) => [Cli, "core", "update-index", "--additional-urls", url]
    case CoreInstall(p) => [Cli, "core", "install", p]
    case LibInstall(p) => [Cli, "lib", "install", p]
    case Compile(board, output, sketch) => [Cli, "compile", "-b", board, "-o", output, sketch]
  }

  /** Reads a command back from an argument vector; whatever it accepts is
      exactly what `Argv` produces. */
  function ParseArgv(argv: seq<string>): (r: Option<Command>)
    ensures r.Some? ==> Argv(r.value) == argv
  {
    if |argv| == 5 && argv[..4] == [Cli, "core", "update-index", "--additional-urls"] then
      Some(UpdateIndex(argv[4]))
    else if |argv| == 4 && argv[..3] == [Cli, "core", "install"] then
      Some(CoreInstall(argv[3]))
    else if |argv| == 4 && argv[..3] == [Cli, "lib", "install"] then
      Some(LibInstall(argv[3]))
    else if |argv| == 7 && argv[..3] == [Cli, "compile", "-b"] && argv[4] == "-o" then
      Some(Compile(argv[3], argv[5], argv[6]))
    else
      None
  }

  /** Every command's argument vector reads back as that command. */
  lemma ParseArgvInvertsArgv(c: Command)
    ensures ParseArgv(Argv(c)) == Some(c)
  {
    var argv := Argv(c);
    match c
    case UpdateIndex(_) =>
      assert argv[..4] == [Cli, "core", "update-index", "--additional-urls"];
    case CoreInstall(_) =>
      assert argv[..3] == [Cli, "core", "install"];
    case LibInstall(_) =>
      assert argv[..3] == [Cli, "lib", "install"];
    case Compile(_, _, _) =>
      assert argv[..3] == [Cli, "compile", "-b"];
  }

  /** Distinct commands reach the toolchain as distinct argument vectors. */
  lemma ArgvInjective(c1: Command, c2: Command)
    requires Argv(c1) == Argv(c2)
    ensures c1 == c2
  {
    ParseArgvInvertsArgv(c1);
    ParseArgvInvertsArgv(c2);
  }
}
