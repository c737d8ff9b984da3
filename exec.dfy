/**
 `vex exec`: load a configuration, warn about version drift, substitute
 parameters, add the debug flags, print the startup banner, launch the
 binary and report its exit status.

 The version probe and the launch are the two calls into the outside world.
 The command reports them as requests (`probe`, `launch`), and their answers
 come in as parameters (`detected`, `spawn`).
 */
module Exec {
  import opened Wrappers
  import opened Text
  import opened Config
  import opened Substitution

  /** How the version recorded at save time compares with the version installed now. */
  datatype Drift =
    | Unchecked                               // nothing was recorded, so the probe did not run
    | Matching
    | Mismatch(saved: string, current: string)
    | Undetected                              // the probe found no version

  /** The version check, as a decision that never stops execution. */
  function ClassifyDrift(saved: Option<string>, detected: Option<string>): (d: Drift)
    ensures d == Unchecked <==> saved.None?
    ensures d == Undetected <==> saved.Some? && detected.None?
    ensures d == Matching <==> saved.Some? && detected == saved
    ensures d.Mismatch? <==> saved.Some? && detected.Some? && detected != saved
    ensures d.Mismatch? ==> d.saved == saved.value && d.current == detected.value
  {
    match saved
    case None => Unchecked
    case Some(s) =>
      match detected
      case Some(c) => if c != s then Mismatch(s, c) else Matching
      case None => Undetected
  }

  /** The warning printed for each outcome of the version check. */
  function DriftWarning(d: Drift): (lines: seq<string>)
    ensures lines == [] <==> d == Unchecked || d == Matching
    ensures d.Mismatch? ==> |lines| == 4 && lines[1] == "   Configuration saved with QEMU " + d.saved
    ensures d.Mismatch? ==> lines[2] == "   Current system has QEMU " + d.current
  {
    match d
    case Mismatch(s, c) =>
      ["WARNING: Version mismatch!",
       "   Configuration saved with QEMU " + s,
       "   Current system has QEMU " + c,
       "   Some features might not work as expected.\n"]
    case Undetected => ["WARNING: Could not detect current QEMU version.\n"]
    case _ => []
  }

  /** The flags debug mode appends: start a GDB server on port 1234 and freeze the CPU. */
  const DEBUG_FLAGS: seq<string> := ["-s", "-S"]

  /** The first line of the startup banner. */
  function StartupHeader(name: string, desc: Option<string>): string {
    match desc
    case Some(d) => "Starting configuration '" + name + "' (" + d + ")"
    case None => "Starting configuration '" + name + "'"
  }

  /** `print_startup_message`: the header, then the full command line with -f, then the debug notes with -d. */
  function StartupMessage(name: string, config: QemuConfig, args: seq<string>, debug: bool, full: bool): (lines: seq<string>)
    ensures |lines| == 1 + (if full then 2 else 0) + (if debug then 3 else 0)
    ensures lines[0] == StartupHeader(name, config.desc)
    ensures full ==> lines[1] == "  QEMU: " + config.qemuBin && lines[2] == "  Args: " + DebugList(args)
  {
    [StartupHeader(name, config.desc)]
    + (if full then ["  QEMU: " + config.qemuBin, "  Args: " + DebugList(args)] else [])
    + (if debug then
         ["  Mode: DEBUG",
          "  GDB server: localhost:1234",
          "\n\U{1F4A1} You can connect with: gdb -ex 'target remote localhost:1234'"]
       else [])
  }

  /** What launching the binary can come to. */
  datatype SpawnResult =
    | SpawnError         // the process could not be started
    | Exited(code: int)  // it ran and exited with this code
    | Killed             // it ran and ended without an exit code (a signal)

  /** The binary and the argument list the command launches. */
  datatype Invocation = Invocation(bin: string, args: seq<string>)

  /**
   `exec_command`. `env` is the process environment, `detected` what the
   version probe reports, `spawn` how the launched process ended.
   */
  method ExecCommand(store: Store, name: string, debug: bool, full: bool,
                     env: map<string, string>, detected: Option<string>, spawn: SpawnResult)
    returns (res: Outcome, out: seq<string>, probe: Option<string>, launch: Option<Invocation>)
    // a configuration that cannot be loaded stops the command before the probe and the launch
    ensures store.Load(name).Err? ==>
      res == Fail(store.Load(name).error) && out == [] && probe == None && launch == None
    ensures store.located && !store.Exists(name) ==> res == Fail(NotFound(name)) && launch == None
    ensures store.Load(name).Ok? ==>
      var config := store.Load(name).value;
      // the probe runs only when a version was recorded, against the configured binary
      && probe == (if config.qemuVersion.Some? then Some(config.qemuBin) else None)
      // the binary is always launched, whatever the version check found
      && launch.Some? && launch.value.bin == config.qemuBin
      // the effective arguments: the substituted stored ones, then the debug flags if asked
      && |launch.value.args| == |config.args| + (if debug then 2 else 0)
      && launch.value.args[..|config.args|] == SubstituteParams(config.args, env)
      && launch.value.args[|config.args|..] == (if debug then DEBUG_FLAGS else [])
      && out == DriftWarning(ClassifyDrift(config.qemuVersion, detected))
                + StartupMessage(name, config, launch.value.args, debug, full)
      && (res == Pass <==> spawn == Exited(0))
      && (spawn == SpawnError ==> res == Fail(SpawnFailed(config.qemuBin)))
      && (spawn.Exited? && spawn.code != 0 ==> res == Fail(ExitFailed(spawn.code)))
      && (spawn == Killed ==> res == Fail(ExitFailed(-1)))
  {
    out, probe, launch := [], None, None;
    var loaded := store.Load(name);
    if loaded.Err? {
      return Fail(loaded.error), out, probe, launch;
    }
    var config := loaded.value;

    if config.qemuVersion.Some? {
      probe := Some(config.qemuBin);
      out := out + DriftWarning(ClassifyDrift(config.qemuVersion, detected));
    }
    assert out == DriftWarning(ClassifyDrift(config.qemuVersion, detected));

    var execArgs := config.args;
    execArgs := SubstituteParams(execArgs, env);
    if debug {
      execArgs := execArgs + ["-s"];
      execArgs := execArgs + ["-S"];
    }
    assert execArgs == SubstituteParams(config.args, env) + (if debug then DEBUG_FLAGS else []);

    out := out + StartupMessage(name, config, execArgs, debug, full);

    launch := Some(Invocation(config.qemuBin, execArgs));
    match spawn {
      case SpawnError => res := Fail(SpawnFailed(config.qemuBin));
      case Exited(code) => res := if code == 0 then Pass else Fail(ExitFailed(code));
      case Killed => res := Fail(ExitFailed(-1));
    }
  }
}
