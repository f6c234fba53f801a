/** The gate chain of `compile_sketch` over commands already built: the
    index update, whose answer is not looked at, then the core install, the
    library installs and the compile, each install stopping the run when it
    fails. */
module Gates {
  import opened Wrappers
  import opened Toolchain

  /** How a run ends. `Completed` records the compile outcome, which is
      reported on the console and nowhere else. */
  datatype Halt =
    | MissingSketch
    | MissingTarget
    | MissingBoard
    | CoreInstallFailed
    | LibraryInstallFailed(index: nat)
    | Completed(compiled: bool)

  /** The commands a run issued, in order, and how it ended. */
  datatype Run = Run(trace: seq<Command>, halt: Halt)

  /** The process exit status: every early exit is `sys.exit(1)`; returning
      from `compile_sketch` leads to `sys.exit(0)`. */
  function ExitStatus(h: Halt): (status: int)
    ensures status == 0 || status == 1
    ensures status == 0 <==> h.Completed?
  {
    if h.Completed? then 0 else 1
  }

  /** Position of a command kind in the fixed step order. */
  function Phase(c: Command): nat {
    match c
    case UpdateIndex(_) => 0
    case CoreInstall(_) => 1
    case LibInstall(_) => 2
    case Compile(_, _, _) => 3
  }

  /** `b` may follow `a`: a later step, or another library install. */
  predicate InOrder(a: Command, b: Command) {
    Phase(a) < Phase(b) || (a.LibInstall? && b.LibInstall?)
  }

  /** Each command may follow the one before it. */
  ghost predicate Ordered(t: seq<Command>) {
    forall i :: 0 < i < |t| ==> InOrder(t[i - 1], t[i])
  }

  /** Every command before the last one succeeded, except index
      registrations, whose outcome nobody looks at. */
  ghost predicate NothingAfterFailure(t: seq<Command>, ok: Outcomes) {
    forall i :: 0 <= i < |t| - 1 && !t[i].UpdateIndex? ==> ok(t[i])
  }

  /** The commands a validated project asks for, step by step. */
  datatype Steps = Steps(index: seq<Command>, core: Option<Command>, libs: seq<Command>, compile: Command)

  /** Each step holds commands of its own kind; at most one index update. */
  predicate WellFormed(s: Steps) {
    && |s.index| <= 1
    && (forall i :: 0 <= i < |s.index| ==> s.index[i].UpdateIndex?)
    && (s.core.Some? ==> s.core.value.CoreInstall?)
    && (forall k :: 0 <= k < |s.libs| ==> s.libs[k].LibInstall?)
    && s.compile.Compile?
  }

  /** The outcome of a gated sequence of steps: the commands attempted, and
      the index of the failing one if any. */
  datatype Attempted = Attempted(trace: seq<Command>, failedAt: Option<nat>)

  /** Issues `cs` in order and stops right after the first failure. */
  function RunUntilFailure(cs: seq<Command>, ok: Outcomes): (r: Attempted)
    ensures r.trace <= cs
    ensures r.failedAt.None? ==> r.trace == cs
    ensures r.failedAt.Some? ==> r.failedAt.value == |r.trace| - 1 && !ok(r.trace[|r.trace| - 1])
    ensures forall k :: 0 <= k < |r.trace| && (r.failedAt.None? || k < r.failedAt.value) ==> ok(r.trace[k])
  {
    if cs == [] then Attempted([], None)
    else if !ok(cs[0]) then Attempted([cs[0]], Some(0))
    else
      var rest := RunUntilFailure(cs[1..], ok);
      Attempted([cs[0]] + rest.trace, if rest.failedAt.Some? then Some(rest.failedAt.value + 1) else None)
  }

  /** Runs the steps of a validated project against the toolchain `ok`:
      index update, core install, library installs, compile. Each install
      stops the run when it fails; the index update and the compile do
      not. */
  function Execute(s: Steps, ok: Outcomes): (r: Run)
    requires WellFormed(s)
    ensures s.index < r.trace
    ensures r.halt == CoreInstallFailed || r.halt.LibraryInstallFailed? || r.halt.Completed?
  {
    if s.core.Some? && !ok(s.core.value) then
      Run(s.index + [s.core.value], CoreInstallFailed)
    else
      var attempted := RunUntilFailure(s.libs, ok);
      match attempted.failedAt
      case Some(i) => Run(s.index + Installed(s) + attempted.trace, LibraryInstallFailed(i))
      case None => Run(s.index + Installed(s) + attempted.trace + [s.compile], Completed(ok(s.compile)))
  }

  /** The core install as a (possibly empty) piece of the trace. */
  function Installed(s: Steps): seq<Command> {
    if s.core.Some? then [s.core.value] else []
  }

  /** A trace laid out as at most one index update, at most one core
      install, library installs, and at most one compile is ordered. */
  lemma OrderedLayout(index: seq<Command>, core: seq<Command>, libs: seq<Command>, tail: seq<Command>)
    requires |index| <= 1 && forall i :: 0 <= i < |index| ==> index[i].UpdateIndex?
    requires |core| <= 1 && forall i :: 0 <= i < |core| ==> core[i].CoreInstall?
    requires forall k :: 0 <= k < |libs| ==> libs[k].LibInstall?
    requires |tail| <= 1 && forall i :: 0 <= i < |tail| ==> tail[i].Compile?
    ensures Ordered(index + core + libs + tail)
  {
    OrderedConcat(index, core);
    OrderedConcat(index + core, libs);
    OrderedConcat(index + core + libs, tail);
  }

  /** The commands of a run come in step order. */
  lemma ExecuteOrdered(s: Steps, ok: Outcomes)
    requires WellFormed(s)
    ensures Ordered(Execute(s, ok).trace)
  {
    var attempted := RunUntilFailure(s.libs, ok);
    if s.core.Some? && !ok(s.core.value) {
      OrderedLayout(s.index, [s.core.value], [], []);
      assert s.index + [s.core.value] + [] + [] == s.index + [s.core.value];
    } else if attempted.failedAt.Some? {
      OrderedLayout(s.index, Installed(s), attempted.trace, []);
      assert s.index + Installed(s) + attempted.trace + [] == s.index + Installed(s) + attempted.trace;
    } else {
      OrderedLayout(s.index, Installed(s), attempted.trace, [s.compile]);
    }
  }

  /** After the index update every command is a later step. */
  lemma ExecuteIndexFirst(s: Steps, ok: Outcomes)
    requires WellFormed(s)
    ensures var r := Execute(s, ok);
      forall i :: |s.index| <= i < |r.trace| ==> Phase(r.trace[i]) >= 1
  {
    var r := Execute(s, ok);
    var attempted := RunUntilFailure(s.libs, ok);
    forall i | |s.index| <= i < |r.trace| ensures Phase(r.trace[i]) >= 1 {
      var k := i - |s.index|;
      if s.core.Some? && k == 0 {
        assert r.trace[i] == s.core.value;
      } else if k - |Installed(s)| < |attempted.trace| {
        assert r.trace[i] == attempted.trace[k - |Installed(s)|];
      } else {
        assert r.trace[i] == s.compile;
      }
    }
  }

  /** How a run ends: every command before the last succeeded (index
      updates aside); a failed install is the last command; the run
      completes exactly when the last command is the compile, whose answer
      it records. */
  lemma ExecuteGates(s: Steps, ok: Outcomes)
    requires WellFormed(s)
    ensures var r := Execute(s, ok);
      && NothingAfterFailure(r.trace, ok)
      && (r.halt.Completed? <==> r.trace[|r.trace| - 1].Compile?)
      && (r.halt == CoreInstallFailed ==> r.trace[|r.trace| - 1].CoreInstall? && !ok(r.trace[|r.trace| - 1]))
      && (r.halt.LibraryInstallFailed? ==> r.trace[|r.trace| - 1].LibInstall? && !ok(r.trace[|r.trace| - 1]))
      && (r.halt.Completed? ==> r.halt.compiled == ok(r.trace[|r.trace| - 1]))
  {
    var r := Execute(s, ok);
    var attempted := RunUntilFailure(s.libs, ok);
    if !(s.core.Some? && !ok(s.core.value)) {
      var pre := s.index + Installed(s);
      forall i | 0 <= i < |r.trace| - 1 && !r.trace[i].UpdateIndex? ensures ok(r.trace[i]) {
        if i < |pre| {
          assert r.trace[i] == pre[i];
        } else {
          assert r.trace[i] == attempted.trace[i - |pre|];
        }
      }
    }
  }

  /** Two ordered traces joined where the seam is in order. */
  lemma OrderedConcat(a: seq<Command>, b: seq<Command>)
    requires Ordered(a) && Ordered(b)
    requires a != [] && b != [] ==> InOrder(a[|a| - 1], b[0])
    ensures Ordered(a + b)
  {
    var t := a + b;
    forall i | 0 < i < |t| ensures InOrder(t[i - 1], t[i]) {
      if i < |a| {
        assert t[i - 1] == a[i - 1] && t[i] == a[i];
      } else if i == |a| {
        assert t[i - 1] == a[|a| - 1] && t[i] == b[0];
      } else {
        assert t[i - 1] == b[i - 1 - |a|] && t[i] == b[i - |a|];
      }
    }
  }

  /** In an ordered trace every later command may follow every earlier
      one: the steps come in their fixed order and only library installs
      repeat. */
  lemma {:induction false} OrderedPairwise(t: seq<Command>)
    requires Ordered(t)
    ensures forall i, j :: 0 <= i < j < |t| ==> InOrder(t[i], t[j])
  {
    if |t| > 1 {
      var u := t[..|t| - 1];
      assert Ordered(u) by {
        forall i | 0 < i < |u| ensures InOrder(u[i - 1], u[i]) {
          assert u[i - 1] == t[i - 1] && u[i] == t[i];
        }
      }
      OrderedPairwise(u);
      forall i, j | 0 <= i < j < |t| ensures InOrder(t[i], t[j]) {
        if j < |t| - 1 {
          assert t[i] == u[i] && t[j] == u[j];
        } else if i < j - 1 {
          assert InOrder(u[i], u[j - 1]);
          assert InOrder(t[j - 1], t[j]);
        }
      }
    }
  }

  /** In an ordered trace a compile command can only be the last one. */
  lemma CompileOnlyLast(t: seq<Command>)
    requires Ordered(t)
    ensures forall i :: 0 <= i < |t| - 1 ==> !t[i].Compile?
  {
    OrderedPairwise(t);
    forall i | 0 <= i < |t| - 1 ensures !t[i].Compile? {
      assert InOrder(t[i], t[|t| - 1]);
    }
  }

  /** The core is installed exactly when the steps hold one, and the run
      ends as a failed core install exactly when that install fails. */
  lemma ExecuteCore(s: Steps, ok: Outcomes)
    requires WellFormed(s)
    ensures var r := Execute(s, ok);
      && (s.core.None? ==> r.halt != CoreInstallFailed && forall i :: 0 <= i < |r.trace| ==> !r.trace[i].CoreInstall?)
      && (s.core.Some? ==> r.trace[|s.index|] == s.core.value)
      && (s.core.Some? ==> (r.halt == CoreInstallFailed <==> !ok(s.core.value)))
  {
    var r := Execute(s, ok);
    if s.core.None? {
      forall i | 0 <= i < |r.trace| ensures !r.trace[i].CoreInstall? {
        if i >= |s.index| {
          assert Phase(r.trace[i]) >= 2;
        }
      }
    }
  }

  /** A run completes exactly when the core install, if any, and every
      library install succeed; it then ends with the compile command. */
  lemma ExecuteCompletes(s: Steps, ok: Outcomes)
    requires WellFormed(s)
    ensures var r := Execute(s, ok);
      && (r.halt.Completed? <==>
           (s.core.None? || ok(s.core.value)) && forall k :: 0 <= k < |s.libs| ==> ok(s.libs[k]))
      && (r.halt.Completed? ==> r.trace[|r.trace| - 1] == s.compile)
  {
    var attempted := RunUntilFailure(s.libs, ok);
    if attempted.failedAt.Some? {
      var i := attempted.failedAt.value;
      assert attempted.trace[i] == s.libs[i];
    }
  }

  /** A trace's library installs, in the order they were issued. */
  function LibraryInstalls(t: seq<Command>): (ls: seq<Command>)
    ensures |ls| <= |t|
    ensures forall c :: c in ls <==> c in t && c.LibInstall?
  {
    if t == [] then []
    else (if t[0].LibInstall? then [t[0]] else []) + LibraryInstalls(t[1..])
  }

  lemma {:induction false} LibraryInstallsConcat(a: seq<Command>, b: seq<Command>)
    ensures LibraryInstalls(a + b) == LibraryInstalls(a) + LibraryInstalls(b)
  {
    if a == [] {
      assert a + b == b;
    } else {
      assert (a + b)[0] == a[0];
      assert (a + b)[1..] == a[1..] + b;
      LibraryInstallsConcat(a[1..], b);
    }
  }

  lemma {:induction false} LibraryInstallsOfInstalls(t: seq<Command>)
    requires forall k :: 0 <= k < |t| ==> t[k].LibInstall?
    ensures LibraryInstalls(t) == t
  {
    if t != [] {
      LibraryInstallsOfInstalls(t[1..]);
    }
  }

  lemma {:induction false} LibraryInstallsOfOthers(t: seq<Command>)
    requires forall k :: 0 <= k < |t| ==> !t[k].LibInstall?
    ensures LibraryInstalls(t) == []
  {
    if t != [] {
      LibraryInstallsOfOthers(t[1..]);
    }
  }

  /** A trace made of non-library commands, library installs, and
      non-library commands has those installs as its library installs. */
  lemma InstallsBetween(before: seq<Command>, installs: seq<Command>, after: seq<Command>)
    requires LibraryInstalls(before) == []
    requires forall k :: 0 <= k < |installs| ==> installs[k].LibInstall?
    requires forall k :: 0 <= k < |after| ==> !after[k].LibInstall?
    ensures LibraryInstalls(before + installs + after) == installs
  {
    LibraryInstallsOfInstalls(installs);
    LibraryInstallsOfOthers(after);
    LibraryInstallsConcat(before, installs);
    LibraryInstallsConcat(before + installs, after);
  }

  /** The library installs of a run are a prefix of the listed ones, cut
      off right after the first failure: none after a failed core install,
      all of them when the run completes. */
  lemma ExecuteLibraryInstalls(s: Steps, ok: Outcomes)
    requires WellFormed(s)
    ensures var r := Execute(s, ok);
      var ls := LibraryInstalls(r.trace);
      && ls <= s.libs
      && (r.halt == CoreInstallFailed ==> ls == [])
      && (r.halt.Completed? ==> ls == s.libs)
      && (r.halt.LibraryInstallFailed? ==> |ls| == r.halt.index + 1 && !ok(ls[r.halt.index]))
      && (forall j :: 0 <= j < |ls| && (r.halt.LibraryInstallFailed? ==> j < r.halt.index) ==> ok(ls[j]))
  {
    var r := Execute(s, ok);
    var pre := s.index + Installed(s);
    LibraryInstallsOfOthers(pre);
    if s.core.Some? && !ok(s.core.value) {
      LibraryInstallsOfOthers(r.trace);
    } else {
      var attempted := RunUntilFailure(s.libs, ok);
      var tail := if attempted.failedAt.None? then [s.compile] else [];
      assert r.trace == pre + attempted.trace + tail;
      InstallsBetween(pre, attempted.trace, tail);
    }
  }

  /** Gated steps reading the same answers from two oracles run alike. */
  lemma {:induction false} RunUntilFailureAgree(cs: seq<Command>, ok1: Outcomes, ok2: Outcomes)
    requires forall k :: 0 <= k < |cs| ==> ok1(cs[k]) == ok2(cs[k])
    ensures RunUntilFailure(cs, ok1) == RunUntilFailure(cs, ok2)
  {
    if cs != [] {
      RunUntilFailureAgree(cs[1..], ok1, ok2);
    }
  }

  /** Two toolchains that answer the core, library and compile commands
      alike run the steps alike; the index update's answer is never read. */
  lemma ExecuteAgree(s: Steps, ok1: Outcomes, ok2: Outcomes)
    requires WellFormed(s)
    requires s.core.Some? ==> ok1(s.core.value) == ok2(s.core.value)
    requires forall k :: 0 <= k < |s.libs| ==> ok1(s.libs[k]) == ok2(s.libs[k])
    requires ok1(s.compile) == ok2(s.compile)
    ensures Execute(s, ok1) == Execute(s, ok2)
  {
    RunUntilFailureAgree(s.libs, ok1, ok2);
  }

  /** The compile command's answer changes neither the commands issued nor
      the exit status. */
  lemma ExecuteIgnoresCompile(s: Steps, ok1: Outcomes, ok2: Outcomes)
    requires WellFormed(s)
    requires s.core.Some? ==> ok1(s.core.value) == ok2(s.core.value)
    requires forall k :: 0 <= k < |s.libs| ==> ok1(s.libs[k]) == ok2(s.libs[k])
    ensures Execute(s, ok1).trace == Execute(s, ok2).trace
    ensures ExitStatus(Execute(s, ok1).halt) == ExitStatus(Execute(s, ok2).halt)
  {
    RunUntilFailureAgree(s.libs, ok1, ok2);
  }
}
