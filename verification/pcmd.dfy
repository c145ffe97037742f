/** The command runner of the transfer server (KPopenCmd): the mode letters
    a command is opened with, the parent's side of opening it, the wait for
    the child to leave the server's own image, closing, and the /proc stat
    record (KCProcStat) the wait reads.

    The operating system is a parameter: what pipe(), fork(), fdopen(),
    waitpid() and kill() report, what /proc/<pid>/stat holds at each look,
    and the monotonic clock, are given as data. The child's side of fork
    (dup2, execv) is not modelled. */
module PCmd {
  import opened Wrappers
  import opened Bytes
  import CStr

  // ---------------------------------------------------------------------------
  // /proc/<pid>/stat

  /** The four leading fields of a stat record: pid, "(comm)", state, ppid. */
  datatype ProcStat = ProcStat(pid: int32, binName: string, state: string, ppid: int32)

  /** A pid_t holding an unsigned long long: the low 32 bits as a signed value. */
  function ToPid(v: nat): (p: int32)
    ensures v < TWO_31 ==> p == v
    ensures p % TWO_32 == v % TWO_32
  {
    var w := v % TWO_32;
    if w >= TWO_31 then w - TWO_32 else w
  }

  /** KCProcStat::Parse: split at spaces; fewer than four fields fail.
      Otherwise pid and ppid are read with strtoull, and the name is the
      second field with its parentheses trimmed. */
  function ParseProcStat(buf: string): (r: Option<ProcStat>)
    ensures r.None? <==> |CStr.Tokenize(buf, {' '})| < 4
    ensures r.Some? ==> r.value.state == CStr.Tokenize(buf, {' '})[2] && |r.value.state| > 0
  {
    var v := CStr.Tokenize(buf, {' '});
    if |v| < 4 then None
    else Some(ProcStat(ToPid(CStr.StrToUL(v[0]).0), CStr.Trim(v[1], {'(', ')'}), v[2], ToPid(CStr.StrToUL(v[3]).0)))
  }

  /** The text of a stat record as the kernel writes it: the fields joined by
      single spaces, the name in parentheses, then any further fields. */
  function StatLine(pid: nat, name: string, state: string, ppid: nat, rest: seq<string>): string {
    CStr.Join([CStr.NatToString(pid), "(" + name + ")", state, CStr.NatToString(ppid)] + rest, " ")
  }

  /** Parse reads back every field of a record whose name holds no space or
      parenthesis and whose pids fit a pid_t. */
  lemma ProcStatRoundTrip(pid: nat, name: string, state: string, ppid: nat, rest: seq<string>)
    requires pid < TWO_31 && ppid < TWO_31
    requires |name| > 0 && CStr.NoneOf(name, {' ', '(', ')'})
    requires |state| > 0 && CStr.NoneOf(state, {' '})
    requires forall k :: 0 <= k < |rest| ==> |rest[k]| > 0 && CStr.NoneOf(rest[k], {' '})
    ensures ParseProcStat(StatLine(pid, name, state, ppid, rest)) == Some(ProcStat(pid, name, state, ppid))
  {
    var parts := [CStr.NatToString(pid), "(" + name + ")", state, CStr.NatToString(ppid)] + rest;
    StatPartsClean(pid, name, state, ppid, rest);
    CStr.TokenizeJoin(parts, ' ', {' '});
    ParseOfParts(pid, name, state, ppid, rest);
  }

  /** Parse of a line whose fields the tokenizer finds unchanged. */
  lemma ParseOfParts(pid: nat, name: string, state: string, ppid: nat, rest: seq<string>)
    requires pid < TWO_31 && ppid < TWO_31
    requires |name| > 0 && name[0] !in {'(', ')'} && name[|name| - 1] !in {'(', ')'}
    requires CStr.Tokenize(StatLine(pid, name, state, ppid, rest), {' '})
             == [CStr.NatToString(pid), "(" + name + ")", state, CStr.NatToString(ppid)] + rest
    ensures ParseProcStat(StatLine(pid, name, state, ppid, rest)) == Some(ProcStat(pid, name, state, ppid))
  {
    var v := CStr.Tokenize(StatLine(pid, name, state, ppid, rest), {' '});
    assert v[0] == CStr.NatToString(pid) && v[1] == "(" + name + ")";
    assert v[2] == state && v[3] == CStr.NatToString(ppid);
    PidReadBack(pid);
    PidReadBack(ppid);
    TrimParentheses(name);
    ParseOfFields(StatLine(pid, name, state, ppid, rest), v);
  }

  /** A rendered pid is read back as the same pid_t. */
  lemma PidReadBack(n: nat)
    requires n < TWO_31
    ensures ToPid(CStr.StrToUL(CStr.NatToString(n)).0) == n
  {
    NumberReadBack(n);
  }

  /** Parse in terms of the fields the tokenizer found. */
  lemma ParseOfFields(buf: string, v: seq<string>)
    requires CStr.Tokenize(buf, {' '}) == v && |v| >= 4
    ensures ParseProcStat(buf)
         == Some(ProcStat(ToPid(CStr.StrToUL(v[0]).0), CStr.Trim(v[1], {'(', ')'}), v[2], ToPid(CStr.StrToUL(v[3]).0)))
  {
  }

  /** The fields of a stat line are non-empty and free of spaces. */
  lemma StatPartsClean(pid: nat, name: string, state: string, ppid: nat, rest: seq<string>)
    requires |name| > 0 && CStr.NoneOf(name, {' ', '(', ')'})
    requires |state| > 0 && CStr.NoneOf(state, {' '})
    requires forall k :: 0 <= k < |rest| ==> |rest[k]| > 0 && CStr.NoneOf(rest[k], {' '})
    ensures var parts := [CStr.NatToString(pid), "(" + name + ")", state, CStr.NatToString(ppid)] + rest;
      forall k :: 0 <= k < |parts| ==> |parts[k]| > 0 && CStr.NoneOf(parts[k], {' '})
  {
    var wrapped := "(" + name + ")";
    var parts := [CStr.NatToString(pid), wrapped, state, CStr.NatToString(ppid)] + rest;
    NumberHasNoSpace(pid);
    NumberHasNoSpace(ppid);
    assert CStr.NoneOf(wrapped, {' '}) by {
      forall i | 0 <= i < |wrapped| ensures wrapped[i] != ' ' {
        if 0 < i < |wrapped| - 1 { assert wrapped[i] == name[i - 1]; }
      }
    }
    assert forall k :: 4 <= k < |parts| ==> parts[k] == rest[k - 4];
  }

  lemma NumberHasNoSpace(n: nat)
    ensures CStr.NoneOf(CStr.NatToString(n), {' '})
  {
    var s := CStr.NatToString(n);
    forall i | 0 <= i < |s| ensures s[i] != ' ' {
      assert CStr.IsDigit(s[i]);
    }
  }

  /** strtoull reads a rendered pid back. */
  lemma NumberReadBack(n: nat)
    requires n < TWO_31
    ensures CStr.StrToUL(CStr.NatToString(n)).0 == n
  {
    var d := CStr.NatToString(n);
    CStr.DigitsValueOfNatToString(n);
    CStr.StrToULOfDigits(d, "");
    assert d + "" == d;
  }

  /** Trimming "()" off "(name)" leaves the name when it neither starts nor
      ends with a parenthesis. */
  lemma TrimParentheses(name: string)
    requires |name| > 0 && name[0] !in {'(', ')'} && name[|name| - 1] !in {'(', ')'}
    ensures CStr.Trim("(" + name + ")", {'(', ')'}) == name
  {
    var cs := {'(', ')'};
    var s := "(" + name + ")";
    assert s[1..][0] == name[0];
    assert CStr.LeadingRun(s[1..], cs) == 0;
    assert CStr.LeadingRun(s, cs) == 1;
    var l := CStr.TrimLeft(s, cs);
    assert l == name + ")";
    assert l[..|l| - 1] == name;
    assert CStr.TrimRight(l, cs) == CStr.TrimRight(name, cs);
  }

  /** GetProcStat: the record file could not be read, or it is parsed. */
  function GetProcStat(statFile: Option<string>): (r: Option<ProcStat>)
    ensures statFile.None? ==> r.None?
    ensures statFile.Some? ==> r == ParseProcStat(statFile.value)
  {
    match statFile
    case None => None
    case Some(text) => ParseProcStat(text)
  }

  // ---------------------------------------------------------------------------
  // Mode letters

  /** What openImp takes from the mode: read from the child's stdout, write
      to its stdin, close-on-exec (always set), and stderr into stdout. */
  datatype OpenMode = OpenMode(read: bool, write: bool, cloexec: bool, errToOut: bool)

  /** The letters openImp knows. */
  predicate ModeLetter(c: char) { c == 'r' || c == 'w' || c == 'e' || c == '2' }

  /** The switch over the mode letters, up to the terminating NUL: any other
      letter fails at once. */
  function ScanMode(m: string, acc: OpenMode): (r: Option<OpenMode>)
    ensures r.Some? <==> forall i :: 0 <= i < |CStr.CString(m)| ==> ModeLetter(CStr.CString(m)[i])
    ensures r.Some? ==> r.value.read == (acc.read || 'r' in CStr.CString(m))
    ensures r.Some? ==> r.value.write == (acc.write || 'w' in CStr.CString(m))
    ensures r.Some? ==> r.value.errToOut == (acc.errToOut || '2' in CStr.CString(m))
    ensures r.Some? ==> r.value.cloexec == (acc.cloexec || 'e' in CStr.CString(m))
  {
    if |m| == 0 || m[0] == '\0' then Some(acc)
    else
      assert CStr.CString(m) == [m[0]] + CStr.CString(m[1..]);
      match m[0]
      case 'r' => ScanMode(m[1..], acc.(read := true))
      case 'w' => ScanMode(m[1..], acc.(write := true))
      case 'e' => ScanMode(m[1..], acc.(cloexec := true))
      case '2' => ScanMode(m[1..], acc.(errToOut := true))
      case _ => assert !ModeLetter(CStr.CString(m)[0]); None
  }

  /** The mode check of openImp: every letter known, and at least one of
      read and write asked for. Close-on-exec starts (and stays) on. */
  function ParseMode(mode: string): (r: Option<OpenMode>)
    ensures var t := CStr.CString(mode);
      r.Some? <==> (forall i :: 0 <= i < |t| ==> ModeLetter(t[i])) && ('r' in t || 'w' in t)
    ensures var t := CStr.CString(mode);
      r.Some? ==> r.value == OpenMode('r' in t, 'w' in t, true, '2' in t)
  {
    match ScanMode(mode, OpenMode(false, false, true, false))
    case None => None
    case Some(o) => if !o.read && !o.write then None else Some(o)
  }

  /** The mode kl_tool sends, "rw", opens both directions. */
  lemma ReadWriteModeAccepted()
    ensures ParseMode("rw") == Some(OpenMode(true, true, true, false))
  {
    assert CStr.CString("rw") == "rw" by {
      assert CStr.CString("w") == "w";
    }
  }

  /** "rwc" is refused: 'c' is not a mode letter. */
  lemma UnknownLetterRejected()
    ensures ParseMode("rwc").None?
  {
    var t := CStr.CString("rwc");
    assert t == "rwc" by {
      assert CStr.CString("c") == "c";
      assert CStr.CString("wc") == "wc";
    }
    assert !ModeLetter(t[2]);
  }

  // ---------------------------------------------------------------------------
  // The command handle

  /** A KPopenCmd as the parent sees it: the timeout it was built with, the
      child pid, which of its two streams are open, whether it killed its
      own child while opening, and the command text. */
  datatype Popen = Popen(timeout: uint64, childPid: int, readOpen: bool, writeOpen: bool, selfKill: bool, cmd: string)

  /** The constructor: no child, no stream. */
  function NewPopen(timeout: uint64): (p: Popen)
    ensures !p.readOpen && !p.writeOpen && !p.selfKill && p.childPid == 0
  {
    Popen(timeout, 0, false, false, false, "")
  }

  /** What waitpid left in `status`: a status word, or failure (the loop
      retries EINTR, any other error leaves the initial 1 << 8). */
  datatype Reap = Reaped(status: nat) | WaitFailed

  /** WEXITSTATUS: bits 8 to 15 of the status word. */
  function ExitStatus(status: nat): (code: nat)
    ensures code < 256
    ensures status < 0x1_0000 ==> code == status / 256
  {
    (status / 256) % 256
  }

  datatype Closed = Closed(code: nat, popen: Popen, killTried: bool)

  /** Close(ignoreWait): with no stream open it returns 0 and changes
      nothing. Otherwise both streams are closed; without a child it returns
      0; a handle built with a timeout first tries KillChildExecClose; then
      the child is reaped (or not waited for, status 0), the pid forgotten,
      and its exit status returned. */
  function Close(p: Popen, ignoreWait: bool, reap: Reap): (r: Closed)
    ensures !r.popen.readOpen && !r.popen.writeOpen
    ensures r.code < 256
    ensures !p.readOpen && !p.writeOpen ==> r == Closed(0, p, false)
    ensures r.killTried <==> (p.readOpen || p.writeOpen) && p.childPid > 0 && p.timeout > 0
    ensures ignoreWait ==> r.code == 0
    ensures r.popen.childPid != p.childPid ==> r.popen.childPid == 0 && p.childPid > 0
  {
    if !p.readOpen && !p.writeOpen then Closed(0, p, false)
    else
      var p1 := p.(readOpen := false, writeOpen := false);
      if p.childPid <= 0 then Closed(0, p1, false)
      else
        var status := if ignoreWait then 0 else match reap { case Reaped(s) => s case WaitFailed => 256 };
        Closed(ExitStatus(status), p1.(childPid := 0), p.timeout > 0)
  }

  /** A second Close finds nothing to do. */
  lemma CloseTwice(p: Popen, ignoreWait: bool, reap: Reap, ignoreWait2: bool, reap2: Reap)
    ensures var first := Close(p, ignoreWait, reap);
      Close(first.popen, ignoreWait2, reap2) == Closed(0, first.popen, false)
  {
  }

  /** A child that exited normally with code `e` is reported as `e`; a
      failed wait as 1. */
  lemma CloseReportsExitCode(p: Popen, e: nat)
    requires e < 256 && (p.readOpen || p.writeOpen) && p.childPid > 0
    ensures Close(p, false, Reaped(e * 256)).code == e
    ensures Close(p, false, WaitFailed).code == 1
  {
  }

  /** CloseWriteFp: only the stream to the child's stdin is closed. */
  function CloseWriteFp(p: Popen): (r: Popen)
    ensures !r.writeOpen && r.readOpen == p.readOpen && r.childPid == p.childPid
  {
    p.(writeOpen := false)
  }

  /** CloseReadFp: only the stream from the child's stdout is closed. */
  function CloseReadFp(p: Popen): (r: Popen)
    ensures !r.readOpen && r.writeOpen == p.writeOpen && r.childPid == p.childPid
  {
    p.(readOpen := false)
  }

  /** KillChildExecClose(ppid): SIGKILL is sent only when the child's stat
      record can be read and names `ppid` as parent; the result is whether
      kill succeeded. */
  function KillChildExecClose(statFile: Option<string>, ppid: int, killOk: bool): (r: (bool, bool))
    ensures r.0 <==> GetProcStat(statFile).Some? && GetProcStat(statFile).value.ppid == ppid
    ensures r.1 <==> r.0 && killOk
  {
    match GetProcStat(statFile)
    case None => (false, false)
    case Some(st) => if st.ppid != ppid then (false, false) else (true, killOk)
  }

  // ---------------------------------------------------------------------------
  // Waiting for the child to exec

  /** One look at the child: the content of its stat file (if readable) and
      the monotonic clock in milliseconds. */
  datatype Sample = Sample(statFile: Option<string>, clockMs: nat)

  /** curTime - beginTime in uint64 arithmetic. */
  function Elapsed(beginMs: nat, nowMs: nat): (d: nat)
    ensures beginMs <= nowMs < beginMs + TWO_64 ==> d == nowMs - beginMs
  {
    (nowMs - beginMs) % TWO_64
  }

  /** The child still shows the server's binary under the server as parent. */
  predicate StillForked(curBin: string, myPid: nat, s: Sample) {
    GetProcStat(s.statFile).Some?
    && GetProcStat(s.statFile).value.ppid == myPid
    && GetProcStat(s.statFile).value.binName == curBin
  }

  /** The loop of WaitChildToExec from `waitCount` on: it leaves as soon as
      the stat is unreadable, the parent differs or the binary changed;
      within the first second it only polls; after that every look counts,
      and the eleventh counted look kills the child, self_kill_ being set
      when kill succeeds. The result is self_kill_; looks running out mean
      the loop is still waiting. */
  function WaitLoop(curBin: string, myPid: nat, beginMs: nat, samples: seq<Sample>, waitCount: nat, killOk: bool): (selfKill: bool)
    decreases |samples|
  {
    if |samples| == 0 then false
    else if !StillForked(curBin, myPid, samples[0]) then false
    else if Elapsed(beginMs, samples[0].clockMs) <= 1000 then WaitLoop(curBin, myPid, beginMs, samples[1..], waitCount, killOk)
    else if waitCount + 1 > 10 then killOk
    else WaitLoop(curBin, myPid, beginMs, samples[1..], waitCount + 1, killOk)
  }

  /** WaitChildToExec: nothing to wait for when the server's own path is unknown. */
  function WaitChildToExec(curBin: string, myPid: nat, beginMs: nat, samples: seq<Sample>, killOk: bool): (selfKill: bool)
    ensures selfKill ==> |curBin| > 0 && killOk
  {
    if |curBin| == 0 then false
    else
      WaitKillsAfterElevenLate(curBin, myPid, beginMs, samples, 0, killOk);
      WaitLoop(curBin, myPid, beginMs, samples, 0, killOk)
  }

  /** The number of looks after the first second among the leading looks
      that still show the forked server. */
  function LateLooks(curBin: string, myPid: nat, beginMs: nat, samples: seq<Sample>): (n: nat)
    ensures n <= |samples|
  {
    if |samples| == 0 || !StillForked(curBin, myPid, samples[0]) then 0
    else (if Elapsed(beginMs, samples[0].clockMs) <= 1000 then 0 else 1) + LateLooks(curBin, myPid, beginMs, samples[1..])
  }

  /** The child is killed exactly when kill succeeds and more than ten late
      looks (counting those already made) find it still running the server. */
  lemma {:induction false} WaitKillsAfterElevenLate(curBin: string, myPid: nat, beginMs: nat, samples: seq<Sample>,
                                                    waitCount: nat, killOk: bool)
    requires waitCount <= 10
    ensures WaitLoop(curBin, myPid, beginMs, samples, waitCount, killOk)
        <==> killOk && waitCount + LateLooks(curBin, myPid, beginMs, samples) > 10
    decreases |samples|
  {
    if |samples| > 0 && StillForked(curBin, myPid, samples[0]) {
      if Elapsed(beginMs, samples[0].clockMs) <= 1000 {
        WaitKillsAfterElevenLate(curBin, myPid, beginMs, samples[1..], waitCount, killOk);
      } else if waitCount + 1 <= 10 {
        WaitKillsAfterElevenLate(curBin, myPid, beginMs, samples[1..], waitCount + 1, killOk);
      }
    }
  }

  /** With the server's path given absolutely, a look whose record names a
      process without a '/' never shows the forked server: the comparison
      of a path with a process name fails at once and the wait ends at the
      first readable look, never killing anything. */
  lemma AbsolutePathNeverWaits(curBin: string, myPid: nat, beginMs: nat, samples: seq<Sample>, killOk: bool)
    requires '/' in curBin
    requires |samples| > 0 && GetProcStat(samples[0].statFile).Some? ==> '/' !in GetProcStat(samples[0].statFile).value.binName
    ensures LateLooks(curBin, myPid, beginMs, samples) == 0
    ensures !WaitChildToExec(curBin, myPid, beginMs, samples, killOk)
  {
    WaitKillsAfterElevenLate(curBin, myPid, beginMs, samples, 0, killOk);
  }

  /** The name the kernel keeps for a process image and shows in its stat
      record: the last component of the executable's path, cut to 15
      characters. */
  function CommOf(path: string): (c: string)
    ensures '/' !in c && |c| <= 15
  {
    var base := match CStr.RFindChar(path, '/') { case None => path case Some(i) => path[i + 1..] };
    if |base| <= 15 then base else base[..15]
  }

  /** WaitChildToExec comparing the record's name with the name of the
      server's own image rather than with its path. */
  function WaitChildToExecByComm(curBin: string, myPid: nat, beginMs: nat, samples: seq<Sample>, killOk: bool): (selfKill: bool)
    ensures selfKill <==> |curBin| > 0 && killOk && LateLooks(CommOf(curBin), myPid, beginMs, samples) > 10
  {
    if |curBin| == 0 then false
    else
      WaitKillsAfterElevenLate(CommOf(curBin), myPid, beginMs, samples, 0, killOk);
      WaitLoop(CommOf(curBin), myPid, beginMs, samples, 0, killOk)
  }

  /** The record of a child that has not exec'd yet (it carries the
      server's own name, under the server as parent) is recognised by the
      comparison with the image name, and not by the comparison with the
      path. */
  lemma ForkedChildRecognised(curBin: string, myPid: nat, pid: nat, state: string, rest: seq<string>, clockMs: nat)
    requires pid < TWO_31 && myPid < TWO_31 && '/' in curBin
    requires |CommOf(curBin)| > 0 && CStr.NoneOf(CommOf(curBin), {' ', '(', ')'})
    requires |state| > 0 && CStr.NoneOf(state, {' '})
    requires forall k :: 0 <= k < |rest| ==> |rest[k]| > 0 && CStr.NoneOf(rest[k], {' '})
    ensures var look := Sample(Some(StatLine(pid, CommOf(curBin), state, myPid, rest)), clockMs);
      StillForked(CommOf(curBin), myPid, look) && !StillForked(curBin, myPid, look)
  {
    ProcStatRoundTrip(pid, CommOf(curBin), state, myPid, rest);
  }

  // ---------------------------------------------------------------------------
  // Opening

  /** What the system calls of openImp report to the parent: whether the
      pipes could be made, fork's result, and whether each fdopen worked. */
  datatype Spawn = Spawn(pipesOk: bool, pid: int, readFdopenOk: bool, writeFdopenOk: bool)

  /** What WaitChildToExec sees: the server's path, its pid, the clock at
      the start, the looks at the child, and whether kill succeeds; and what
      waitpid reports if the handle has to be closed. */
  datatype Watch = Watch(curBin: string, myPid: nat, beginMs: nat, samples: seq<Sample>, killOk: bool, reap: Reap)

  /** OpenCmd(command, mode, waitToExec), the parent's side of openImp:
      the mode is checked first, then pipes, fork and fdopen may fail; with
      `waitToExec` the parent waits for the exec, and a child it had to kill
      makes it close the handle and fail. (A pid of 0 is the child's side,
      which execs and never returns to the caller.) */
  function OpenCmd(p: Popen, command: string, mode: string, waitToExec: bool, sys: Spawn, w: Watch): (r: (bool, Popen))
    ensures r.0 ==> ParseMode(mode).Some? && sys.pipesOk && sys.pid > 0 && !r.1.selfKill
    ensures r.0 ==> r.1.childPid == sys.pid && r.1.cmd == command
    ensures r.0 ==> r.1.readOpen == (p.readOpen || ParseMode(mode).value.read)
    ensures r.0 ==> r.1.writeOpen == (p.writeOpen || ParseMode(mode).value.write)
    ensures ParseMode(mode).None? ==> r == (false, p)
  {
    match ParseMode(mode)
    case None => (false, p)
    case Some(m) =>
      if !sys.pipesOk || sys.pid <= 0 then (false, p)
      else
        var p1 := p.(childPid := sys.pid);
        if m.read && !sys.readFdopenOk then (false, p1)
        else
          var p2 := p1.(readOpen := m.read || p.readOpen);
          if m.write && !sys.writeFdopenOk then (false, p2)
          else
            var p3 := p2.(writeOpen := m.write || p.writeOpen, cmd := command);
            var killed := waitToExec && WaitChildToExec(w.curBin, w.myPid, w.beginMs, w.samples, w.killOk);
            var p4 := p3.(selfKill := p.selfKill || killed);
            if p4.selfKill then (false, Close(p4, false, w.reap).popen) else (true, p4)
  }
}
