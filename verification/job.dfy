/** The parts of the node manager's Job class that decide something rather
    than only run shell commands: the shell-command wrapper's answer, the
    library names read from an installer's error output, the reinstall and
    liveness retry bounds, the start/stop/restart dispatch and the
    node_exporter pid read from netstat. Command outcomes, file contents
    and connection probes are inputs. */
module Job {
  import opened Wrappers
  import opened CStr
  import opened JsonTree
  import InstanceRegistry

  // ---------------------------------------------------------------------------
  // job_system_cmd

  /** job_system_cmd: launch the command and log its first error line.
      Every path ends at the same `return true`, so neither a failed launch
      nor an error line is reported to the caller. */
  function SystemCmd(launched: bool, firstErrLine: Option<string>): (r: bool)
    ensures r
  {
    if !launched then true
    else if firstErrLine.Some? then true
    else true
  }

  // ---------------------------------------------------------------------------
  // Shared-library names in an installer's error output

  const MARKER: string := "error while loading shared libraries"

  /** The library a loader error line names: from the first ':' at or after
      the first MARKER, past the spaces that follow it, up to the next ':'.
      A line without MARKER or without either ':' names nothing. */
  function LibName(line: string): (r: Option<string>)
    ensures r.Some? ==> ':' !in r.value && (|r.value| > 0 ==> r.value[0] != ' ')
  {
    var s := CString(line);
    match Find(s, MARKER)
    case None => None
    case Some(i) =>
      match FindChar(s[i..], ':')
      case None => None
      case Some(j) => FieldTo(s[i + j + 1..], ':')
  }

  /** The text after the leading spaces of `t`, up to the first `c`; None
      when no `c` follows. */
  function FieldTo(t: string, c: char): (r: Option<string>)
    ensures r.Some? ==> c !in r.value && (|r.value| > 0 ==> r.value[0] != ' ')
  {
    var u := t[LeadingRun(t, {' '})..];
    match FindChar(u, c)
    case None => None
    case Some(k) => Some(u[..k])
  }

  /** The set of libraries a run's error lines name. */
  function LibsOf(lines: seq<string>): (r: set<string>)
    decreases |lines|
  {
    if lines == [] then {}
    else (match LibName(lines[0]) case None => {} case Some(x) => {x}) + LibsOf(lines[1..])
  }

  /** A name is in the set exactly when some line names it. */
  lemma LibsOfNamed(lines: seq<string>)
    ensures forall x :: x in LibsOf(lines) <==> exists k :: 0 <= k < |lines| && LibName(lines[k]) == Some(x)
  {
    forall x
      ensures x in LibsOf(lines) <==> exists k :: 0 <= k < |lines| && LibName(lines[k]) == Some(x)
    {
      LibsOfNamedAt(lines, x);
    }
  }

  /** LibsOfNamed for one name, by induction on the lines. */
  lemma {:induction false} LibsOfNamedAt(lines: seq<string>, x: string)
    ensures x in LibsOf(lines) <==> exists k :: 0 <= k < |lines| && LibName(lines[k]) == Some(x)
    decreases |lines|
  {
    if lines != [] {
      LibsOfNamedAt(lines[1..], x);
      if x in LibsOf(lines) {
        if LibName(lines[0]) != Some(x) {
          var k :| 0 <= k < |lines[1..]| && LibName(lines[1..][k]) == Some(x);
          assert lines[k + 1] == lines[1..][k];
        }
      }
      if exists k :: 0 <= k < |lines| && LibName(lines[k]) == Some(x) {
        var k :| 0 <= k < |lines| && LibName(lines[k]) == Some(x);
        if k > 0 {
          assert lines[1..][k - 1] == lines[k];
        }
      }
    }
  }

  /** The loader's message "<pre>error while loading shared libraries: <lib>:
      <rest>" names <lib>, whatever the text before the marker holds, as long
      as the marker does not already occur earlier. */
  lemma LibNameOfLoaderMessage(pre: string, lib: string, rest: string)
    requires Find(pre + MARKER, MARKER) == Some(|pre|)
    requires ':' !in lib && (|lib| > 0 ==> lib[0] != ' ')
    requires '\0' !in pre && '\0' !in lib && '\0' !in rest
    ensures LibName(pre + MARKER + [':'] + (" " + lib + [':'] + rest)) == Some(lib)
  {
    var t := " " + lib + [':'] + rest;
    AfterMarker(pre, t);
    FieldOf(" ", lib, ':', rest);
  }

  /** In "<pre>MARKER:<t>" the library field is read from <t>. */
  lemma AfterMarker(pre: string, t: string)
    requires Find(pre + MARKER, MARKER) == Some(|pre|)
    requires '\0' !in pre && '\0' !in t
    ensures LibName(pre + MARKER + [':'] + t) == FieldTo(t, ':')
  {
    var s := pre + MARKER + [':'] + t;
    assert CString(s) == s && Find(s, MARKER) == Some(|pre|) && FindChar(s[|pre|..], ':') == Some(|MARKER|) &&
           s[|pre| + |MARKER| + 1..] == t by {
      assert ':' !in MARKER && '\0' !in MARKER;
      MatchThen(pre, MARKER, ':', t);
    }
    LibNameFrom(s, |pre|, t);
  }

  /** LibName once its searches are known. */
  lemma LibNameFrom(s: string, i: nat, t: string)
    requires CString(s) == s && Find(s, MARKER) == Some(i) && FindChar(s[i..], ':') == Some(|MARKER|)
    requires s[i + |MARKER| + 1..] == t
    ensures LibName(s) == FieldTo(t, ':')
  {
  }

  lemma ConsAssoc(x: char, a: string, b: string)
    ensures [x] + (a + b) == [x] + a + b
  {
  }

  /** In "<pre><m><c><t>", where <m> first occurs right after <pre> and
      holds no <c>: the search for <m> stops at <pre>'s end, the first <c>
      from there is the one right after <m>, and <t> follows it. */
  lemma MatchThen(pre: string, m: string, c: char, t: string)
    requires Find(pre + m, m) == Some(|pre|)
    requires c !in m && c != '\0' && '\0' !in pre && '\0' !in m && '\0' !in t
    ensures var s := pre + m + [c] + t;
      CString(s) == s && Find(s, m) == Some(|pre|) && FindChar(s[|pre|..], c) == Some(|m|) &&
      s[|pre| + |m|..] == [c] + t && s[|pre| + |m| + 1..] == t
  {
    NoNulConcat(pre, m, c, t);
    Slices(pre, m, c, t);
    FindOfPrefix(pre + m, [c] + t, m);
    FirstCharAfter(m, c, t);
  }

  lemma NoNulConcat(pre: string, m: string, c: char, t: string)
    requires c != '\0' && '\0' !in pre && '\0' !in m && '\0' !in t
    ensures CString(pre + m + [c] + t) == pre + m + [c] + t
  {
    NoNulCString(pre + m + [c] + t);
  }

  lemma Slices(pre: string, m: string, c: char, t: string)
    ensures var s := pre + m + [c] + t;
      s == (pre + m) + ([c] + t) && s[|pre|..] == m + [c] + t &&
      s[|pre| + |m|..] == [c] + t && s[|pre| + |m| + 1..] == t
  {
  }

  /** The field read by FieldTo from "<spaces><x><c><rest>" is <x>. */
  lemma FieldOf(spaces: string, x: string, c: char, rest: string)
    requires forall k :: 0 <= k < |spaces| ==> spaces[k] == ' '
    requires c !in x && (|x| > 0 ==> x[0] != ' ') && c != ' '
    ensures FieldTo(spaces + x + [c] + rest, c) == Some(x)
  {
    var u := x + [c] + rest;
    assert spaces + x + [c] + rest == spaces + u;
    SkipBlanks(spaces, u);
    FirstCharAfter(x, c, rest);
  }

  lemma FirstCharAfter(a: string, c: char, b: string)
    requires c !in a
    ensures FindChar(a + [c] + b, c) == Some(|a|)
    ensures (a + [c] + b)[..|a|] == a
  {
    var s := a + [c] + b;
    assert s[|a|] == c;
    assert s[..|a|] == a;
  }

  // ---------------------------------------------------------------------------
  // Reinstalling after missing libraries

  /** What the installer does on its successive runs: whether BiodirectPopen
      launches it, and the libraries its error lines name (LibsOf of the
      lines). Runs past the end of the sequences launch and name nothing. */
  datatype Runs = Runs(launches: seq<bool>, missing: seq<set<string>>)

  function Launches(env: Runs, k: nat): bool {
    k >= |env.launches| || env.launches[k]
  }

  function MissingIn(env: Runs, k: nat): set<string> {
    if k < |env.missing| then env.missing[k] else {}
  }

  /** The libraries the first `n` runs report. */
  function MissingUpTo(env: Runs, n: nat): set<string>
    decreases n
  {
    if n == 0 then {} else MissingUpTo(env, n - 1) + MissingIn(env, n - 1)
  }

  /** The first `n` runs launch. */
  predicate LaunchedUpTo(env: Runs, n: nat) {
    forall k :: 0 <= k < n ==> Launches(env, k)
  }

  /** The retry count, 9: `retry-- > 0` lets nine reruns through. */
  const INSTALL_RETRY: int := 9

  /** The install loop of job_install_storage and job_install_computer
      (the `start:` label and its goto): run the installer, add the names
      its errors report to one set that is never emptied, and start over
      while that set is non-empty and retries remain. The result is whether
      every run launched, the number of runs, and the set. */
  method ReinstallAsWritten(env: Runs) returns (launched: bool, runs: nat, libs: set<string>)
    ensures 1 <= runs <= INSTALL_RETRY + 1
    ensures launched <==> LaunchedUpTo(env, runs)
    ensures libs == MissingUpTo(env, runs)
    ensures forall k :: 1 <= k < runs ==> MissingUpTo(env, k) != {}
    ensures launched && runs <= INSTALL_RETRY ==> libs == {}
  {
    var retry := INSTALL_RETRY;
    libs := {};
    runs := 0;
    while true
      invariant 0 <= retry <= INSTALL_RETRY && runs == INSTALL_RETRY - retry
      invariant LaunchedUpTo(env, runs) && libs == MissingUpTo(env, runs)
      invariant forall k :: 1 <= k <= runs ==> MissingUpTo(env, k) != {}
      decreases retry
    {
      if !Launches(env, runs) {
        return false, runs + 1, libs + MissingIn(env, runs);
      }
      libs := libs + MissingIn(env, runs);
      runs := runs + 1;
      if |libs| > 0 && retry > 0 {
        retry := retry - 1;
        continue;
      }
      return true, runs, libs;
    }
  }

  /** Once any run reports a missing library, the loop as written keeps
      reinstalling until the retries are spent, even when the next run
      reports nothing. */
  lemma StaleLibsExhaustRetries(env: Runs, runs: nat)
    requires LaunchedUpTo(env, runs) && 1 <= runs <= INSTALL_RETRY
    requires MissingIn(env, 0) != {}
    ensures MissingUpTo(env, runs) != {}
  {
    MissingUpToGrows(env, 1, runs);
  }

  lemma {:induction false} MissingUpToGrows(env: Runs, m: nat, n: nat)
    requires m <= n
    ensures MissingUpTo(env, m) <= MissingUpTo(env, n)
    decreases n
  {
    if m < n {
      MissingUpToGrows(env, m, n - 1);
    }
  }

  /** The loop with the set emptied at the start of each run: it stops at
      the first run that reports no missing library, or after nine
      reruns. */
  method Reinstall(env: Runs) returns (launched: bool, runs: nat, libs: set<string>)
    ensures 1 <= runs <= INSTALL_RETRY + 1
    ensures launched <==> LaunchedUpTo(env, runs)
    ensures libs == MissingIn(env, runs - 1)
    ensures forall k :: 0 <= k < runs - 1 ==> MissingIn(env, k) != {}
    ensures launched && runs <= INSTALL_RETRY ==> libs == {}
  {
    var retry := INSTALL_RETRY;
    runs := 0;
    while true
      invariant 0 <= retry <= INSTALL_RETRY && runs == INSTALL_RETRY - retry
      invariant LaunchedUpTo(env, runs)
      invariant forall k :: 0 <= k < runs ==> MissingIn(env, k) != {}
      decreases retry
    {
      libs := MissingIn(env, runs);
      if !Launches(env, runs) {
        return false, runs + 1, libs;
      }
      runs := runs + 1;
      if |libs| > 0 && retry > 0 {
        retry := retry - 1;
        continue;
      }
      return true, runs, libs;
    }
  }

  /** job_storage_add_lib / job_computer_add_lib as written: the command
      names the literal directory "program_path", not the variable that
      holds the package's lib directory. */
  function AddLibCommandsAsWritten(libDir: string, libs: set<string>): (r: set<string>)
    ensures forall lib :: lib in libs <==> "cd program_path;cp deps/" + lib + " ." in r
  {
    var r := set lib | lib in libs :: "cd program_path;cp deps/" + lib + " .";
    forall lib | "cd program_path;cp deps/" + lib + " ." in r
      ensures lib in libs
    {
      var l :| l in libs && "cd program_path;cp deps/" + lib + " ." == "cd program_path;cp deps/" + l + " .";
      Unwrap("cd program_path;cp deps/", lib, l, " .");
    }
    r
  }

  /** Wrapping text in a fixed prefix and suffix loses nothing. */
  lemma Unwrap(p: string, x: string, y: string, q: string)
    requires p + x + q == p + y + q
    ensures x == y
  {
    assert |x| == |y|;
    assert x == (p + x + q)[|p|..|p| + |x|];
    assert y == (p + y + q)[|p|..|p| + |y|];
  }

  /** The commands ignore the directory they were meant to change to. */
  lemma AddLibIgnoresLibDir(a: string, b: string, libs: set<string>)
    ensures AddLibCommandsAsWritten(a, libs) == AddLibCommandsAsWritten(b, libs)
  {
  }

  /** The copy into the package's lib directory. */
  function AddLibCommands(libDir: string, libs: set<string>): (r: set<string>)
    ensures forall lib :: lib in libs <==> "cd " + libDir + ";cp deps/" + lib + " ." in r
  {
    var r := set lib | lib in libs :: "cd " + libDir + ";cp deps/" + lib + " .";
    forall lib | "cd " + libDir + ";cp deps/" + lib + " ." in r
      ensures lib in libs
    {
      var l :| l in libs && "cd " + libDir + ";cp deps/" + lib + " ." == "cd " + libDir + ";cp deps/" + l + " .";
      Unwrap("cd " + libDir + ";cp deps/", lib, l, " .");
    }
    r
  }

  /** Every corrected command starts by changing to the lib directory. */
  lemma AddLibUsesLibDir(libDir: string, libs: set<string>)
    ensures forall c :: c in AddLibCommands(libDir, libs) ==> IsPrefix("cd " + libDir + ";", c)
  {
    forall c | c in AddLibCommands(libDir, libs)
      ensures IsPrefix("cd " + libDir + ";", c)
    {
      var lib :| lib in libs && c == "cd " + libDir + ";cp deps/" + lib + " .";
      assert c == ("cd " + libDir + ";") + ("cp deps/" + lib + " .");
    }
  }

  // ---------------------------------------------------------------------------
  // Waiting for the new instance

  function Probe(probes: seq<bool>, k: nat): bool {
    k < |probes| && probes[k]
  }

  /** `while (retry-- > 0) { sleep(1); if (alive) break; }` followed by
      `if (retry < 0)` error: at most `tries` probes, and the instance
      counts as up iff one of them answers. `used` is the number of probes
      made. */
  method WaitAlive(probes: seq<bool>, tries: nat) returns (alive: bool, used: nat)
    ensures used <= tries
    ensures alive <==> exists k :: 0 <= k < tries && Probe(probes, k)
    ensures alive ==> used >= 1 && Probe(probes, used - 1) && forall k :: 0 <= k < used - 1 ==> !Probe(probes, k)
    ensures !alive ==> used == tries
  {
    var retry: int := tries;
    used := 0;
    while true
      invariant 0 <= retry <= tries && used == tries - retry
      invariant forall k :: 0 <= k < used ==> !Probe(probes, k)
      decreases retry
    {
      var go := retry > 0;
      retry := retry - 1;
      if !go {
        break;
      }
      used := used + 1;
      if Probe(probes, used - 1) {
        break;
      }
    }
    alive := retry >= 0;
  }

  /** The storage install probes nine times, the computer install six. */
  const STORAGE_PROBES: nat := 9
  const COMPUTER_PROBES: nat := 6

  /** Everything an install run meets: the installer runs and the probes. */
  datatype InstallEnv = InstallEnv(runs: Runs, probes: seq<bool>)

  /** job_install_storage after its parameters are read: the preparatory
      shell commands, the install loop as written, then the liveness wait.
      job_system_cmd reports success whatever the command does (SystemCmd),
      so its "create_cmd_path error" and "job_system_cmd error" exits are
      never taken. `runs` is the number of installer runs. */
  method InstallStorage(env: InstallEnv) returns (ok: bool, info: string, runs: nat)
    ensures info in {"BiodirectPopen error", "connect storage instance error", "install storage succeed"}
    ensures 1 <= runs <= INSTALL_RETRY + 1
    ensures info == "BiodirectPopen error" <==> !LaunchedUpTo(env.runs, runs)
    ensures forall k :: 1 <= k < runs ==> MissingUpTo(env.runs, k) != {}
    ensures LaunchedUpTo(env.runs, runs) && runs <= INSTALL_RETRY ==> MissingUpTo(env.runs, runs) == {}
    ensures ok <==> info == "install storage succeed"
    ensures ok <==> LaunchedUpTo(env.runs, runs) && exists k :: 0 <= k < STORAGE_PROBES && Probe(env.probes, k)
  {
    var launched, libs;
    launched, runs, libs := ReinstallAsWritten(env.runs);
    if !launched {
      return false, "BiodirectPopen error", runs;
    }
    var alive, used := WaitAlive(env.probes, STORAGE_PROBES);
    if !alive {
      return false, "connect storage instance error", runs;
    }
    return true, "install storage succeed", runs;
  }

  /** The same install with the set of missing libraries emptied before each
      run: a rerun happens only when the previous run reported a library. */
  method InstallStorageCorrected(env: InstallEnv) returns (ok: bool, info: string, runs: nat)
    ensures info in {"BiodirectPopen error", "connect storage instance error", "install storage succeed"}
    ensures 1 <= runs <= INSTALL_RETRY + 1
    ensures info == "BiodirectPopen error" <==> !LaunchedUpTo(env.runs, runs)
    ensures forall k :: 0 <= k < runs - 1 ==> MissingIn(env.runs, k) != {}
    ensures LaunchedUpTo(env.runs, runs) && runs <= INSTALL_RETRY ==> MissingIn(env.runs, runs - 1) == {}
    ensures ok <==> info == "install storage succeed"
    ensures ok <==> LaunchedUpTo(env.runs, runs) && exists k :: 0 <= k < STORAGE_PROBES && Probe(env.probes, k)
  {
    var launched, libs;
    launched, runs, libs := Reinstall(env.runs);
    if !launched {
      return false, "BiodirectPopen error", runs;
    }
    var alive, used := WaitAlive(env.probes, STORAGE_PROBES);
    if !alive {
      return false, "connect storage instance error", runs;
    }
    return true, "install storage succeed", runs;
  }

  /** Installer runs where the first names a missing library, the second
      names none, and the third would fail to launch. */
  const StaleRuns: Runs := Runs([true, true, false], [{"libx.so"}])

  /** As written, the library the first run reported keeps the loop going
      past the clean second run, into the run that fails to launch. */
  method StaleLibsReachFailedRun(probes: seq<bool>) returns (info: string)
    ensures info == "BiodirectPopen error"
  {
    var env := InstallEnv(StaleRuns, probes);
    var ok, runs;
    ok, info, runs := InstallStorage(env);
    MissingUpToGrows(StaleRuns, 1, runs);
    assert "libx.so" in MissingUpTo(StaleRuns, 1);
    assert !Launches(StaleRuns, 2);
  }

  /** Emptying the set first, the clean second run ends the loop and the
      install succeeds once the instance answers. */
  method FreshLibsInstall() returns (info: string)
    ensures info == "install storage succeed"
  {
    var env := InstallEnv(StaleRuns, [true]);
    var ok, runs;
    ok, info, runs := InstallStorageCorrected(env);
    assert Probe(env.probes, 0);
    assert !Launches(StaleRuns, 2);
    assert MissingIn(StaleRuns, 0) != {} && MissingIn(StaleRuns, 1) == {};
  }

  // ---------------------------------------------------------------------------
  // Control dispatch

  /** A command job_control_storage / job_control_computer hands to popen. */
  datatype Command =
    | StopMysql(port: int)
    | StartMysql(port: int)
    | PgStop(datadir: string)
    | StartPg(port: int)

  /** The commands of a stop-then-start, stopping at the first one popen
      cannot launch (those in `failing`). Returns whether all launched. */
  function RunCommands(cmds: seq<Command>, failing: set<Command>): (r: (bool, seq<Command>))
    ensures r.0 <==> forall k :: 0 <= k < |cmds| ==> cmds[k] !in failing
    ensures r.0 ==> r.1 == cmds
    ensures !r.0 ==> 0 < |r.1| <= |cmds| && r.1 == cmds[..|r.1|] && r.1[|r.1| - 1] in failing
    decreases |cmds|
  {
    if cmds == [] then (true, [])
    else if cmds[0] in failing then (false, [cmds[0]])
    else
      var rest := RunCommands(cmds[1..], failing);
      assert forall k :: 1 <= k < |cmds| ==> cmds[k] == cmds[1..][k - 1];
      (rest.0, [cmds[0]] + rest.1)
  }

  /** job_control_storage(port, control): 1 stops, 2 starts, 3 stops and
      then starts the mysqld; any other code does nothing and fails. */
  function ControlStorage(port: int, control: int, failing: set<Command>): (r: (bool, seq<Command>))
    ensures control !in {1, 2, 3} ==> r == (false, [])
    ensures control in {1, 2, 3} ==> (r.0 <==> forall k :: 0 <= k < |r.1| ==> r.1[k] !in failing)
  {
    if control == 1 then RunCommands([StopMysql(port)], failing)
    else if control == 2 then RunCommands([StartMysql(port)], failing)
    else if control == 3 then RunCommands([StopMysql(port), StartMysql(port)], failing)
    else (false, [])
  }

  /** A restart is a stop followed, when the stop launched, by a start. */
  lemma RestartIsStopThenStart(port: int, failing: set<Command>)
    ensures var stop := ControlStorage(port, 1, failing);
      var start := ControlStorage(port, 2, failing);
      ControlStorage(port, 3, failing) ==
        if stop.0 then (start.0, stop.1 + start.1) else stop
  {
  }

  /** The data directory of the first node in pgsql_comp.json with the
      given ip and port, "" when none has them. */
  function DatadirOf(nodes: seq<Value>, ip: string, port: int): (d: string)
    ensures (forall k :: 0 <= k < |nodes| ==> AsString(Member(nodes[k], "ip")) != ip || AsInt(Member(nodes[k], "port")) != port) ==> d == ""
    decreases |nodes|
  {
    if nodes == [] then ""
    else if AsString(Member(nodes[0], "ip")) == ip && AsInt(Member(nodes[0], "port")) == port then
      AsString(Member(nodes[0], "datadir"))
    else
      assert forall k :: 1 <= k < |nodes| ==> nodes[k] == nodes[1..][k - 1];
      DatadirOf(nodes[1..], ip, port)
  }

  /** job_control_computer(ip, port, control): a stop reads the data
      directory from pgsql_comp.json (`file` is None when it cannot be read
      or parsed) and runs pg_ctl stop on it; a start runs start_pg.py. */
  function ControlComputer(ip: string, port: int, control: int, file: Option<Value>, failing: set<Command>): (r: (bool, seq<Command>))
    ensures control !in {1, 2, 3} ==> !r.0
    ensures control != 2 && file.None? ==> r == (false, [])
    ensures r.0 ==> forall k :: 0 <= k < |r.1| ==> r.1[k] !in failing
  {
    if control != 2 && file.None? then (false, [])
    else
      var datadir := if control != 2 then DatadirOf(Elements(file.value), ip, port) else "";
      if control == 1 then RunCommands([PgStop(datadir)], failing)
      else if control == 2 then RunCommands([StartPg(port)], failing)
      else if control == 3 then RunCommands([PgStop(datadir), StartPg(port)], failing)
      else (false, [])
  }

  /** A computer start does not depend on pgsql_comp.json. */
  lemma ComputerStartIgnoresFile(ip: string, port: int, f1: Option<Value>, f2: Option<Value>, failing: set<Command>)
    ensures ControlComputer(ip, port, 2, f1, failing) == ControlComputer(ip, port, 2, f2, failing)
    ensures ControlComputer(ip, port, 2, f1, failing).1 == [StartPg(port)]
  {
  }

  /** What job_control_instance leaves behind. `pullup` lists the values it
      passes to set_auto_pullup_working, in order. */
  datatype Outcome = Outcome(ok: bool, info: string, reg: InstanceRegistry.Registry,
                             cmds: seq<Command>, pullup: seq<bool>)

  /** The control code of a "control" string: stop 1, start 2, restart 3. */
  function ControlCode(control: string): (c: Option<int>)
    ensures c.Some? <==> control in {"stop", "start", "restart"}
    ensures c.Some? ==> c.value in {1, 2, 3}
  {
    if control == "stop" then Some(1)
    else if control == "start" then Some(2)
    else if control == "restart" then Some(3)
    else None
  }

  /** job_control_instance as written. A computer "stop" unregisters with
      remove_storage_instance, and a "control" other than stop, start and
      restart leaves `ret` uninitialised; `stale` is the value it happens
      to hold. Auto-pullup is switched off on entry and back on at both
      exits. */
  function ControlInstanceAsWritten(reg: InstanceRegistry.Registry, para: Value, file: Option<Value>,
                                    failing: set<Command>, stale: bool): (r: Outcome)
    ensures r.pullup == [false, true]
    ensures var t := AsString(Member(para, "type"));
      t != "storage" && t != "computer" ==> !r.ok && r.info == "type item error" && r.reg == reg && r.cmds == []
    ensures r.ok <==> r.info == "control instance succeed"
    ensures !r.ok ==> r.info in {"type item error", "control instance error"}
  {
    var t := AsString(Member(para, "type"));
    var control := AsString(Member(para, "control"));
    var ip := AsString(Member(para, "ip"));
    var port := AsInt(Member(para, "port"));
    if t != "storage" && t != "computer" then Outcome(false, "type item error", reg, [], [false, true])
    else
      var reg1 := if control == "stop" then InstanceRegistry.RemoveStorage(reg, ip, port) else reg;
      var res := match ControlCode(control)
        case None => (stale, [])
        case Some(c) => if t == "storage" then ControlStorage(port, c, failing) else ControlComputer(ip, port, c, file, failing);
      if res.0 then Outcome(true, "control instance succeed", reg1, res.1, [false, true])
      else Outcome(false, "control instance error", reg1, res.1, [false, true])
  }

  /** With an unknown "control" the answer is whatever `ret` held. */
  lemma UnknownControlReadsStale(reg: InstanceRegistry.Registry, ip: string, port: int, file: Option<Value>, failing: set<Command>)
    ensures var para := Object(map["type" := Text("storage"), "control" := Text("pause"), "ip" := Text(ip), "port" := Number(port)]);
      ControlInstanceAsWritten(reg, para, file, failing, true).ok &&
      !ControlInstanceAsWritten(reg, para, file, failing, false).ok
  {
    var para := Object(map["type" := Text("storage"), "control" := Text("pause"), "ip" := Text(ip), "port" := Number(port)]);
    assert Member(para, "type") == Text("storage");
    assert Member(para, "control") == Text("pause");
  }

  /** A registered computer instance stays registered after a computer
      "stop" as written: only the storage and meta lists are searched. */
  lemma ComputerStopKeepsComputer(reg: InstanceRegistry.Registry, ip: string, port: int, file: Option<Value>,
                                  failing: set<Command>, stale: bool)
    ensures var para := Object(map["type" := Text("computer"), "control" := Text("stop"), "ip" := Text(ip), "port" := Number(port)]);
      ControlInstanceAsWritten(reg, para, file, failing, stale).reg.computer == reg.computer
  {
    var para := Object(map["type" := Text("computer"), "control" := Text("stop"), "ip" := Text(ip), "port" := Number(port)]);
    assert Member(para, "type") == Text("computer");
    assert Member(para, "control") == Text("stop");
    assert Member(para, "ip") == Text(ip);
    assert Member(para, "port") == Number(port);
  }

  /** job_control_instance with both defects repaired: a computer "stop"
      unregisters the computer instance, and an unknown "control" is a
      control error. */
  function ControlInstance(reg: InstanceRegistry.Registry, para: Value, file: Option<Value>,
                           failing: set<Command>): (r: Outcome)
    ensures r.pullup == [false, true]
    ensures var t := AsString(Member(para, "type"));
      t != "storage" && t != "computer" ==> !r.ok && r.info == "type item error" && r.reg == reg && r.cmds == []
    ensures ControlCode(AsString(Member(para, "control"))).None? ==> !r.ok && r.cmds == []
    ensures r.ok <==> r.info == "control instance succeed"
    ensures !r.ok ==> r.info in {"type item error", "control instance error"}
  {
    var t := AsString(Member(para, "type"));
    var control := AsString(Member(para, "control"));
    var ip := AsString(Member(para, "ip"));
    var port := AsInt(Member(para, "port"));
    if t != "storage" && t != "computer" then Outcome(false, "type item error", reg, [], [false, true])
    else
      var reg1 := if control != "stop" then reg
                  else if t == "storage" then InstanceRegistry.RemoveStorage(reg, ip, port)
                  else InstanceRegistry.RemoveComputer(reg, ip, port);
      var res := match ControlCode(control)
        case None => (false, [])
        case Some(c) => if t == "storage" then ControlStorage(port, c, failing) else ControlComputer(ip, port, c, file, failing);
      if res.0 then Outcome(true, "control instance succeed", reg1, res.1, [false, true])
      else Outcome(false, "control instance error", reg1, res.1, [false, true])
  }

  /** A computer "stop" takes one registration of that computer off the
      list and leaves the storage side alone. */
  lemma ComputerStopUnregisters(reg: InstanceRegistry.Registry, ip: string, port: int, file: Option<Value>,
                                failing: set<Command>)
    requires InstanceRegistry.Listed(reg.computer, InstanceRegistry.ByAddr(ip, port))
    ensures var para := Object(map["type" := Text("computer"), "control" := Text("stop"), "ip" := Text(ip), "port" := Number(port)]);
      var r := ControlInstance(reg, para, file, failing).reg;
      InstanceRegistry.Count(r.computer, InstanceRegistry.ByAddr(ip, port)) ==
        InstanceRegistry.Count(reg.computer, InstanceRegistry.ByAddr(ip, port)) - 1 &&
      r.storage == reg.storage && r.meta == reg.meta
  {
    var para := Object(map["type" := Text("computer"), "control" := Text("stop"), "ip" := Text(ip), "port" := Number(port)]);
    assert Member(para, "type") == Text("computer");
    assert Member(para, "control") == Text("stop");
    assert Member(para, "ip") == Text(ip);
    assert Member(para, "port") == Number(port);
    InstanceRegistry.RemoveFirstCount(reg.computer, InstanceRegistry.ByAddr(ip, port));
  }

  // ---------------------------------------------------------------------------
  // node_exporter

  /** The netstat state column value of a listening socket. */
  const LISTEN: string := "LISTEN"

  /** The pid in the first netstat line as written: after LISTEN, past
      the first space and the run of spaces after it, up to '/'. None is
      the case the code leaves undefined: no '/' follows, strchr gives NULL
      and the string is built from a negative length. No LISTEN or no
      space after it gives "". */
  function NetstatPidAsWritten(line: string): (r: Option<string>)
    ensures r.Some? && r.value != "" ==> '/' !in r.value && r.value[0] != ' '
  {
    var s := CString(line);
    match Find(s, LISTEN)
    case None => Some("")
    case Some(i) =>
      match FindChar(s[i..], ' ')
      case None => Some("")
      case Some(j) => FieldTo(s[i + j..], '/')
  }

  /** A LISTEN line whose program column is "-" (netstat shows no pid to a
      user who does not own the process) has no '/': as written the pid is
      undefined. */
  lemma DashProgramUndefined(pre: string, spaces: string)
    requires Find(pre + LISTEN, LISTEN) == Some(|pre|)
    requires forall k :: 0 <= k < |spaces| ==> spaces[k] == ' '
    requires '\0' !in pre
    ensures NetstatPidAsWritten(pre + LISTEN + [' '] + (spaces + "-")) == None
  {
    var t := spaces + "-";
    AfterListen(pre, t);
    ConsAssoc(' ', spaces, "-");
    SkipBlanks([' '] + spaces, "-");
  }

  /** In "<pre>LISTEN <t>" the pid field is read from " <t>". */
  lemma AfterListen(pre: string, t: string)
    requires Find(pre + LISTEN, LISTEN) == Some(|pre|)
    requires '\0' !in pre && '\0' !in t
    ensures NetstatPidAsWritten(pre + LISTEN + [' '] + t) == FieldTo([' '] + t, '/')
  {
    var s := pre + LISTEN + [' '] + t;
    assert CString(s) == s && Find(s, LISTEN) == Some(|pre|) && FindChar(s[|pre|..], ' ') == Some(|LISTEN|) &&
           s[|pre| + |LISTEN|..] == [' '] + t by {
      assert ' ' !in LISTEN && '\0' !in LISTEN;
      MatchThen(pre, LISTEN, ' ', t);
    }
    NetstatPidFrom(s, |pre|, [' '] + t);
  }

  /** NetstatPidAsWritten once its searches are known. */
  lemma NetstatPidFrom(s: string, i: nat, t: string)
    requires CString(s) == s && Find(s, LISTEN) == Some(i) && FindChar(s[i..], ' ') == Some(|LISTEN|)
    requires s[i + |LISTEN|..] == t
    ensures NetstatPidAsWritten(s) == FieldTo(t, '/')
  {
  }

  /** The pid with the NULL check on the '/' search, as evidently meant:
      no '/' leaves the pid empty. */
  function NetstatPid(line: string): (r: string)
    ensures r != "" ==> '/' !in r && r[0] != ' '
    ensures NetstatPidAsWritten(line).Some? ==> r == NetstatPidAsWritten(line).value
  {
    match NetstatPidAsWritten(line)
    case None => ""
    case Some(p) => p
  }

  /** A netstat line "<pre>LISTEN <spaces><pid>/<program>" gives <pid>. */
  lemma NetstatPidOfLine(pre: string, spaces: string, pid: string, program: string)
    requires Find(pre + LISTEN, LISTEN) == Some(|pre|)
    requires forall k :: 0 <= k < |spaces| ==> spaces[k] == ' '
    requires |pid| > 0 && pid[0] != ' ' && '/' !in pid
    requires '\0' !in pre && '\0' !in pid && '\0' !in program
    ensures NetstatPid(pre + LISTEN + [' '] + (spaces + pid + ['/'] + program)) == pid
  {
    var t := spaces + pid + ['/'] + program;
    AfterListen(pre, t);
    ConsAssoc(' ', spaces + pid + ['/'], program);
    ConsAssoc(' ', spaces + pid, ['/']);
    ConsAssoc(' ', spaces, pid);
    FieldOf([' '] + spaces, pid, '/', program);
  }

  /** Skipping the leading spaces of "<spaces><u>" leaves <u> when <u> does
      not start with one. */
  lemma {:induction false} SkipBlanks(spaces: string, u: string)
    requires forall k :: 0 <= k < |spaces| ==> spaces[k] == ' '
    requires |u| > 0 ==> u[0] != ' '
    ensures var t := spaces + u; t[LeadingRun(t, {' '})..] == u
    decreases |spaces|
  {
    if |spaces| > 0 {
      var t := spaces + u;
      assert t[0] == ' ';
      assert t[1..] == spaces[1..] + u;
      SkipBlanks(spaces[1..], u);
      var k := LeadingRun(t[1..], {' '});
      assert LeadingRun(t, {' '}) == k + 1;
      assert t[1..][k..] == t[k + 1..];
    } else {
      assert spaces + u == u;
    }
  }

  /** The first line of the netstat pipe: None when popen fails. */
  datatype Listing = NotLaunched | FirstLine(line: Option<string>)

  /** job_node_exporter: start node_exporter when netstat shows no pid on
      its port. The result is the outcome, the message and whether the
      start command was launched. */
  function NodeExporter(listing: Listing, startLaunches: bool): (r: (bool, string, bool))
    ensures listing.NotLaunched? ==> r == (false, "node exporter failed", false)
    ensures r.2 <==> listing.FirstLine? && (listing.line.None? || NetstatPid(listing.line.value) == "") && startLaunches
    ensures r.0 <==> r.1 == "node exporter succeed"
    ensures r.0 <==> listing.FirstLine? && (r.2 || !(listing.line.None? || NetstatPid(listing.line.value) == ""))
  {
    match listing
    case NotLaunched => (false, "node exporter failed", false)
    case FirstLine(line) =>
      var pid := if line.None? then "" else NetstatPid(line.value);
      if pid != "" then (true, "node exporter succeed", false)
      else if !startLaunches then (false, "node exporter failed", false)
      else (true, "node exporter succeed", true)
  }
}
