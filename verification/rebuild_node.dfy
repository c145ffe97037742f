/** The rebuild-node job (CRbNode): seven steps run in a fixed order, each
    naming itself in `step_` and setting a step-specific error code when it
    fails; after every step the job record gets a status derived from the
    error code and the step. Shell commands, metadata queries, MySQL
    variables and the xtrabackup_binlog_info file are inputs. */
module RebuildNode {
  import opened Wrappers
  import opened Bytes
  import opened CStr
  import ErrorCode

  datatype Step = Prepare | Xtraback | Check | Backup | Clear | Recover | Sync

  /** The order Run calls the steps in. */
  const STEPS: seq<Step> := [Prepare, Xtraback, Check, Backup, Clear, Recover, Sync]

  /** The name each step stores in step_ before it acts. */
  function StepName(s: Step): string {
    match s
    case Prepare => "check_param"
    case Xtraback => "xtracback_data"
    case Check => "checksum_data"
    case Backup => "backup_old_data"
    case Clear => "clear_old_data"
    case Recover => "recover_data"
    case Sync => "rebuild_sync"
  }

  const DONE: string := "done"

  /** The error codes each step may leave behind, in the order its checks run. */
  function StepCodes(s: Step): seq<int32> {
    match s
    case Prepare => [ErrorCode.RB_GET_PULLHOST_PARAM_FROM_METADB_ERROR, ErrorCode.RB_NODE_PULL_MYSQL_UNIX_SOCK_ERR,
                     ErrorCode.RB_GET_RBHOST_PARAM_FROM_METADB_ERROR, ErrorCode.RB_NODE_RBUILD_MYSQL_UNIX_SOCK_ERR]
    case Xtraback => [ErrorCode.RB_XTRACBACK_DATA_FROM_PULL_HOST_ERR]
    case Check => [ErrorCode.RB_CHECKSUM_DATA_FROM_PULL_HOST_ERR]
    case Backup => [ErrorCode.RB_BACKUP_REBUILD_NODE_DATA_ERR]
    case Clear => [ErrorCode.RB_CLEARUP_REBUILD_NODE_DATA_ERR]
    case Recover => [ErrorCode.RB_XTRACBACKUP_RECOVER_DATA_ERR, ErrorCode.RB_GET_XTRABACKUP_GIT_POSITION_ERR]
    case Sync => [ErrorCode.RB_START_MYSQL_ERR, ErrorCode.RB_CONNECT_RECOVER_MYSQL_UNIX_ERR,
                  ErrorCode.RB_CHANGE_MASTER_SQL_EXECUTE_ERR]
  }

  /** The step names are distinct and none is "done", so a record's step
      says where the job stopped. */
  lemma StepNamesDistinct()
    ensures forall i, j :: 0 <= i < j < |STEPS| ==> StepName(STEPS[i]) != StepName(STEPS[j])
    ensures forall i :: 0 <= i < |STEPS| ==> StepName(STEPS[i]) != DONE
    ensures forall s: Step :: forall k :: 0 <= k < |StepCodes(s)| ==> StepCodes(s)[k] != ErrorCode.EOK
  {
    ErrorCode.RebuildCodes();
  }

  // ---------------------------------------------------------------------------
  // Inputs

  /** A metadata query: send_stmt failed, or the rows it returned. */
  datatype Query = QueryFailed | Rows(rows: seq<map<string, string>>)

  /** What the outside world answers during one run. */
  datatype Env = Env(
    /** the server_nodes rows for the pull host, then for the host to rebuild */
    pullRows: Query, rbRows: Query,
    /** GetMysqlGlobalVariables(host, name); a missing entry is the "" it
        returns when connecting, querying or finding one row fails */
    globals: map<(string, string), string>,
    /** the exit status ExecuteCmd reports for the step's shell command;
        a missing entry is 0 */
    rc: map<Step, int>,
    /** the lines of xtrabackup_binlog_info, None when it does not open */
    binlogInfo: Option<seq<string>>,
    /** the outcome of each unix-socket connect, then of each change-master
        statement, in the order they would be tried */
    connects: seq<bool>, changes: seq<bool>)

  function OneRow(q: Query): (r: Option<map<string, string>>)
    ensures r.Some? <==> q.Rows? && |q.rows| == 1
  {
    if q.Rows? && |q.rows| == 1 then Some(q.rows[0]) else None
  }

  function Column(row: map<string, string>, name: string): string {
    if name in row then row[name] else ""
  }

  function Global(env: Env, host: string, name: string): string {
    if (host, name) in env.globals then env.globals[(host, name)] else ""
  }

  function Rc(env: Env, s: Step): int {
    if s in env.rc then env.rc[s] else 0
  }

  /** One of the first `n` attempts succeeds. */
  predicate SucceedsWithin(attempts: seq<bool>, n: nat) {
    exists i :: 0 <= i < n && i < |attempts| && attempts[i]
  }

  // ---------------------------------------------------------------------------
  // Derived names

  /** The "ip" of an "ip_port" host: the text before the last '_'. */
  function HostAddr(host: string): string { SplitAtLast(host, '_').0 }

  /** The "port" of an "ip_port" host: the text after the last '_'. */
  function HostPort(host: string): string { SplitAtLast(host, '_').1 }

  /** s.substr(0, s.rfind("/")). */
  function DirOf(s: string): string { SplitAtLast(s, '/').0 }

  /** tool_dir: plugin_dir cut at its last '/' three times, then "/dba_tools". */
  function ToolDir(pluginDir: string): string {
    DirOf(DirOf(DirOf(pluginDir))) + "/dba_tools"
  }

  /** A host written "ip_port" splits back into its parts at the last '_',
      whatever the ip part holds. */
  lemma HostSplit(ip: string, port: string)
    requires '_' !in port
    ensures HostAddr(ip + "_" + port) == ip && HostPort(ip + "_" + port) == port
  {
    SplitAtLastOfJoin(ip, '_', port);
  }

  /** For a plugin directory ".../<d>/<lib>/<plugin>/" (or without the
      final '/') the tools sit beside <d>'s parent: three cuts remove the
      last three components. */
  lemma ToolDirOfPluginDir(base: string, a: string, b: string, c: string)
    requires '/' !in a && '/' !in b && '/' !in c
    ensures ToolDir(base + "/" + a + "/" + b + "/" + c) == base + "/dba_tools"
  {
    SplitAtLastOfJoin(base + "/" + a + "/" + b, '/', c);
    SplitAtLastOfJoin(base + "/" + a, '/', b);
    SplitAtLastOfJoin(base, '/', a);
  }

  // ---------------------------------------------------------------------------
  // The job

  /** The files and directories PrepareParams works out. */
  datatype Paths = Paths(pullEtcfile: string, rbEtcfile: string, tmpEtcfile: string, toolDir: string,
                         xtrabackupTmp: string, backupTmp: string)

  datatype Node = Node(rbHost: string, pullHost: string, masterHost: string, needBackup: int,
                       errorCode: int32, step: string, paths: Paths, gtidPurged: string)

  /** The constructor: no error and no step yet. */
  function NewNode(rbHost: string, pullHost: string, masterHost: string, needBackup: int): (n: Node)
    ensures n.errorCode == ErrorCode.EOK && n.step == ""
  {
    Node(rbHost, pullHost, masterHost, needBackup, 0, "", Paths("", "", "", "", "", ""), "")
  }

  /** "<datadir>/<port>/data/<port>.cnf", the instance's option file. */
  function EtcFile(datadir: string, port: string): string {
    datadir + "/" + port + "/data/" + port + ".cnf"
  }

  /** PrepareParams: both server_nodes lookups must return one row and both
      instances must report a unix socket; checked in that order. */
  function PrepareParams(n: Node, env: Env): (r: (Node, bool))
  {
    var n1 := n.(step := StepName(Prepare));
    match OneRow(env.pullRows)
    case None => (n1.(errorCode := ErrorCode.RB_GET_PULLHOST_PARAM_FROM_METADB_ERROR), false)
    case Some(pullRow) =>
      if Global(env, n.pullHost, "socket") == "" then
        (n1.(errorCode := ErrorCode.RB_NODE_PULL_MYSQL_UNIX_SOCK_ERR), false)
      else match OneRow(env.rbRows)
        case None => (n1.(errorCode := ErrorCode.RB_GET_RBHOST_PARAM_FROM_METADB_ERROR), false)
        case Some(rbRow) =>
          if Global(env, n.rbHost, "socket") == "" then
            (n1.(errorCode := ErrorCode.RB_NODE_RBUILD_MYSQL_UNIX_SOCK_ERR), false)
          else
            var port := HostPort(n.pullHost);
            var rbPort := HostPort(n.rbHost);
            var datadir := Column(rbRow, "datadir");
            var paths := Paths(
              EtcFile(Column(pullRow, "datadir"), port),
              EtcFile(datadir, rbPort),
              datadir + "/" + rbPort + "/" + rbPort + ".cnf",
              ToolDir(Global(env, n.rbHost, "plugin_dir")),
              datadir + "/" + rbPort + "/xtrabackup_tmp",
              datadir + "/" + rbPort + "/backup_tmp");
            (n1.(paths := paths), true)
  }

  /** A step that runs one shell command and fails with `code` when the
      command's exit status is not 0. */
  function CommandStep(s: Step, n: Node, env: Env, code: int32): (r: (Node, bool)) {
    var n1 := n.(step := StepName(s));
    if Rc(env, s) != 0 then (n1.(errorCode := code), false) else (n1, true)
  }

  /** The characters the line trim of GetXtrabackBinlogInfo removes. */
  const LINE_TRIM: set<char> := {' ', '\t', '\n', '\r'}

  /** The trimmed lines, concatenated without separators. */
  function TrimmedLines(lines: seq<string>): string
    decreases |lines|
  {
    if lines == [] then "" else TrimmedLines(lines[..|lines| - 1]) + Trim(lines[|lines| - 1], LINE_TRIM)
  }

  /** GetXtrabackBinlogInfo: the last tab-separated token of the trimmed,
      concatenated lines; "" when the file does not open or holds no token. */
  function BinlogGtid(file: Option<seq<string>>): (r: string)
    ensures file.None? ==> r == ""
    ensures r != "" ==> '\t' !in r
    ensures file.Some? && r == "" ==> forall i :: 0 <= i < |TrimmedLines(file.value)| ==> TrimmedLines(file.value)[i] == '\t'
  {
    match file
    case None => ""
    case Some(lines) =>
      var toks := Tokenize(TrimmedLines(lines), {'\t'});
      if |toks| == 0 then
        TokenizeEmpty(TrimmedLines(lines), {'\t'}, "");
        ""
      else
        TokenizeNoDelim(TrimmedLines(lines), {'\t'}, "", |toks| - 1);
        toks[|toks| - 1]
  }

  lemma {:induction false} TokenizeEmpty(s: string, delims: set<char>, cur: string)
    requires TokenizeFrom(s, delims, cur) == []
    ensures cur == "" && forall i :: 0 <= i < |s| ==> s[i] in delims
    decreases |s|
  {
    if |s| > 0 {
      if s[0] in delims {
        TokenizeEmpty(s[1..], delims, "");
        assert forall i :: 1 <= i < |s| ==> s[i] == s[1..][i - 1];
      } else {
        TokenizeEmpty(s[1..], delims, cur + [s[0]]);
      }
    }
  }

  lemma {:induction false} TokenizeNoDelim(s: string, delims: set<char>, cur: string, k: nat)
    requires NoneOf(cur, delims) && k < |TokenizeFrom(s, delims, cur)|
    ensures NoneOf(TokenizeFrom(s, delims, cur)[k], delims)
    decreases |s|
  {
    if |s| > 0 {
      if s[0] in delims {
        var head := if cur == "" then [] else [cur];
        if k >= |head| {
          TokenizeNoDelim(s[1..], delims, "", k - |head|);
        }
      } else {
        TokenizeNoDelim(s[1..], delims, cur + [s[0]], k);
      }
    }
  }

  /** Trimming a line that neither starts nor ends with white space keeps it. */
  lemma TrimKeeps(s: string, cs: set<char>)
    requires |s| > 0 && s[0] !in cs && s[|s| - 1] !in cs
    ensures Trim(s, cs) == s
  {
    assert LeadingRun(s, cs) == 0;
    assert TrimLeft(s, cs) == s;
  }

  /** The binlog position file "file\tposition\tgtid-set" on one line gives
      its last field, the gtid set. */
  lemma BinlogGtidOfLine(fields: seq<string>)
    requires |fields| > 0
    requires forall k :: 0 <= k < |fields| ==> |fields[k]| > 0 && NoneOf(fields[k], LINE_TRIM)
    ensures BinlogGtid(Some([Join(fields, "\t")])) == fields[|fields| - 1]
  {
    var line := Join(fields, "\t");
    NoTabs(fields);
    TokenizeJoin(fields, '\t', {'\t'});
    JoinEdges(fields, "\t");
    OneLine(line);
  }

  lemma NoTabs(fields: seq<string>)
    requires forall k :: 0 <= k < |fields| ==> NoneOf(fields[k], LINE_TRIM)
    ensures forall k :: 0 <= k < |fields| ==> NoneOf(fields[k], {'\t'})
  {
    forall k | 0 <= k < |fields| ensures NoneOf(fields[k], {'\t'}) {
      assert forall i :: 0 <= i < |fields[k]| ==> fields[k][i] !in LINE_TRIM;
    }
  }

  /** A single line that neither starts nor ends with white space is read
      as it is. */
  lemma OneLine(line: string)
    requires |line| > 0 && line[0] !in LINE_TRIM && line[|line| - 1] !in LINE_TRIM
    ensures TrimmedLines([line]) == line
  {
    TrimKeeps(line, LINE_TRIM);
    assert [line][..0] == [];
    assert "" + line == line;
  }

  /** A join of non-empty pieces starts with the first piece's first
      character and ends with the last piece's last one. */
  lemma {:induction false} JoinEdges(parts: seq<string>, sep: string)
    requires |parts| > 0 && forall k :: 0 <= k < |parts| ==> |parts[k]| > 0
    ensures |Join(parts, sep)| > 0 && Join(parts, sep)[0] == parts[0][0]
    ensures Join(parts, sep)[|Join(parts, sep)| - 1] == parts[|parts| - 1][|parts[|parts| - 1]| - 1]
    decreases |parts|
  {
    if |parts| > 1 {
      JoinEdges(parts[1..], sep);
    }
  }

  /** RecoverXtrabackData: the copy-back command, then the gtid set taken
      from the binlog position file. */
  function RecoverStep(n: Node, env: Env): (r: (Node, bool)) {
    var n1 := n.(step := StepName(Recover));
    if Rc(env, Recover) != 0 then (n1.(errorCode := ErrorCode.RB_XTRACBACKUP_RECOVER_DATA_ERR), false)
    else
      var gtid := BinlogGtid(env.binlogInfo);
      if gtid == "" then (n1.(gtidPurged := gtid, errorCode := ErrorCode.RB_GET_XTRABACKUP_GIT_POSITION_ERR), false)
      else (n1.(gtidPurged := gtid), true)
  }

  /** RebuildSync: start mysqld, connect over the unix socket within ten
      attempts, then run the change-master statement within ten attempts. */
  function SyncStep(n: Node, env: Env): (r: (Node, bool)) {
    var n1 := n.(step := StepName(Sync));
    if Rc(env, Sync) != 0 then (n1.(errorCode := ErrorCode.RB_START_MYSQL_ERR), false)
    else if !SucceedsWithin(env.connects, 10) then (n1.(errorCode := ErrorCode.RB_CONNECT_RECOVER_MYSQL_UNIX_ERR), false)
    else if !SucceedsWithin(env.changes, 10) then (n1.(errorCode := ErrorCode.RB_CHANGE_MASTER_SQL_EXECUTE_ERR), false)
    else (n1, true)
  }

  /** When a step goes through, from the inputs alone. */
  predicate StepSucceeds(s: Step, n: Node, env: Env) {
    match s
    case Prepare =>
      OneRow(env.pullRows).Some? && Global(env, n.pullHost, "socket") != ""
      && OneRow(env.rbRows).Some? && Global(env, n.rbHost, "socket") != ""
    case Xtraback => Rc(env, Xtraback) == 0
    case Check => Rc(env, Check) == 0
    case Backup => n.needBackup == 0 || Rc(env, Backup) == 0
    case Clear => Rc(env, Clear) == 0
    case Recover => Rc(env, Recover) == 0 && BinlogGtid(env.binlogInfo) != ""
    case Sync => Rc(env, Sync) == 0 && SucceedsWithin(env.connects, 10) && SucceedsWithin(env.changes, 10)
  }

  /** The hosts and the backup flag, which no step changes. */
  predicate SameJob(a: Node, b: Node) {
    a.rbHost == b.rbHost && a.pullHost == b.pullHost && a.masterHost == b.masterHost && a.needBackup == b.needBackup
  }

  /** One step: it names itself, keeps the error code when it goes through
      and leaves one of its own codes when it does not. BackupOldData with
      need_backup 0 goes through without running anything. */
  function RunStep(s: Step, n: Node, env: Env): (r: (Node, bool))
    ensures r.0.step == StepName(s) && SameJob(n, r.0)
    ensures r.1 <==> StepSucceeds(s, n, env)
    ensures r.1 ==> r.0.errorCode == n.errorCode
    ensures !r.1 ==> r.0.errorCode in StepCodes(s)
  {
    match s
    case Prepare => PrepareParams(n, env)
    case Xtraback => CommandStep(Xtraback, n, env, ErrorCode.RB_XTRACBACK_DATA_FROM_PULL_HOST_ERR)
    case Check => CommandStep(Check, n, env, ErrorCode.RB_CHECKSUM_DATA_FROM_PULL_HOST_ERR)
    case Backup =>
      if n.needBackup != 0 then CommandStep(Backup, n, env, ErrorCode.RB_BACKUP_REBUILD_NODE_DATA_ERR)
      else (n.(step := StepName(Backup)), true)
    case Clear => CommandStep(Clear, n, env, ErrorCode.RB_CLEARUP_REBUILD_NODE_DATA_ERR)
    case Recover => RecoverStep(n, env)
    case Sync => SyncStep(n, env)
  }

  /** The record UpdateStatRecord writes to cluster_general_job_log. */
  datatype Record = Record(status: string, step: string, errorCode: int32, errorInfo: string)

  /** UpdateStatRecord's status: "failed" for any error code, else "done"
      once step_ is "done", else "ongoing". */
  function Status(code: int32, step: string): (st: string)
    ensures st in {"failed", "done", "ongoing"}
    ensures st == "failed" <==> code != ErrorCode.EOK
    ensures st == "done" <==> code == ErrorCode.EOK && step == DONE
  {
    if code != 0 then "failed" else if step == DONE then "done" else "ongoing"
  }

  function StatRecord(n: Node): Record {
    Record(Status(n.errorCode, n.step), n.step, n.errorCode, ErrorCode.ErrNumStr(ErrorCode.GlobalErrorNum(n.errorCode)))
  }

  /** The steps before `k` go through. */
  predicate PassesUpTo(n: Node, env: Env, k: nat)
    requires k <= |STEPS|
  {
    forall j :: 0 <= j < k ==> StepSucceeds(STEPS[j], n, env)
  }

  /** CRbNode::Run: the steps in order, one record after each, stopping at
      the first step that fails; a run that gets through every step renames
      the step to "done" and records that. */
  method Run(n0: Node, env: Env) returns (ok: bool, last: Node, records: seq<Record>)
    requires n0.errorCode == ErrorCode.EOK
    ensures ok <==> PassesUpTo(n0, env, |STEPS|)
    ensures 1 <= |records| <= |STEPS| + 1
    ensures forall i :: 0 <= i < |records| - 1 ==> records[i] == Ongoing(i)
    ensures ok ==> |records| == |STEPS| + 1 && records[|STEPS|].status == "done" && last.step == DONE
    ensures !ok ==> |records| <= |STEPS| && FailedAt(n0, env, records, |records| - 1)
  {
    var n := n0;
    records := [];
    var i := 0;
    while i < |STEPS|
      invariant 0 <= i <= |STEPS| && |records| == i
      invariant SameJob(n0, n) && n.errorCode == ErrorCode.EOK
      invariant PassesUpTo(n0, env, i)
      invariant forall j :: 0 <= j < i ==> records[j] == Ongoing(j)
    {
      var r := RunOne(i, n0, n, env);
      var rec := StatRecord(r.0);
      if !r.1 {
        FailedAtAppend(n0, env, records, rec);
        records := records + [rec];
        return false, r.0, records;
      }
      OngoingAppend(n0, env, records, rec);
      records := records + [rec];
      n := r.0;
      i := i + 1;
    }
    last := n.(step := DONE);
    records := records + [StatRecord(last)];
    ok := true;
  }

  /** A failing step's record, appended after the passing ones, marks where Run stopped. */
  lemma FailedAtAppend(n0: Node, env: Env, records: seq<Record>, rec: Record)
    requires |records| < |STEPS| && PassesUpTo(n0, env, |records|) && !StepSucceeds(STEPS[|records|], n0, env)
    requires rec.status == "failed" && rec.step == StepName(STEPS[|records|]) && rec.errorCode in StepCodes(STEPS[|records|])
    ensures FailedAt(n0, env, records + [rec], |records|)
  {
  }

  /** A passing step's record keeps the run's invariant one step further. */
  lemma OngoingAppend(n0: Node, env: Env, records: seq<Record>, rec: Record)
    requires |records| < |STEPS| && PassesUpTo(n0, env, |records|) && StepSucceeds(STEPS[|records|], n0, env)
    requires forall j :: 0 <= j < |records| ==> records[j] == Ongoing(j)
    requires rec == Ongoing(|records|)
    ensures PassesUpTo(n0, env, |records| + 1)
    ensures forall j :: 0 <= j < |records| + 1 ==> (records + [rec])[j] == Ongoing(j)
  {
  }

  /** The record after step `i` went through. */
  function Ongoing(i: nat): Record
    requires i < |STEPS|
  {
    Record("ongoing", StepName(STEPS[i]), ErrorCode.EOK, "OK")
  }

  /** Step `k` is the first to fail, and the last record says so. */
  predicate FailedAt(n0: Node, env: Env, records: seq<Record>, k: int) {
    0 <= k < |records| && k < |STEPS| && PassesUpTo(n0, env, k) && !StepSucceeds(STEPS[k], n0, env)
    && records[k].status == "failed" && records[k].step == StepName(STEPS[k])
    && records[k].errorCode in StepCodes(STEPS[k])
  }

  /** Step `i` of Run from a node that has passed the earlier steps. */
  function RunOne(i: nat, n0: Node, n: Node, env: Env): (r: (Node, bool))
    requires i < |STEPS| && SameJob(n0, n) && n.errorCode == ErrorCode.EOK
    ensures r.1 <==> StepSucceeds(STEPS[i], n0, env)
    ensures r.1 ==> SameJob(n0, r.0) && StatRecord(r.0) == Ongoing(i) && r.0.errorCode == ErrorCode.EOK
    ensures !r.1 ==> StatRecord(r.0).status == "failed" && StatRecord(r.0).step == StepName(STEPS[i]) &&
                     StatRecord(r.0).errorCode in StepCodes(STEPS[i])
  {
    var s := STEPS[i];
    var r := RunStep(s, n, env);
    StepSucceedsOfJob(s, n0, n, env);
    if r.1 then
      OngoingRecord(r.0, i);
      r
    else
      FailedRecord(r.0, s);
      r
  }

  /** Whether a step goes through depends on the job, not on the progress. */
  lemma StepSucceedsOfJob(s: Step, a: Node, b: Node, env: Env)
    requires SameJob(a, b)
    ensures StepSucceeds(s, a, env) <==> StepSucceeds(s, b, env)
  {
  }

  lemma OngoingRecord(n: Node, i: nat)
    requires i < |STEPS| && n.errorCode == ErrorCode.EOK && n.step == StepName(STEPS[i])
    ensures StatRecord(n) == Ongoing(i)
  {
    StepNamesDistinct();
  }

  lemma FailedRecord(n: Node, s: Step)
    requires n.errorCode in StepCodes(s) && n.step == StepName(s)
    ensures StatRecord(n).status == "failed" && StatRecord(n).step == StepName(s)
    ensures StatRecord(n).errorCode in StepCodes(s)
  {
    StepNamesDistinct();
  }

  /** A failed metadata lookup for the pull host records the catch-all
      message: its code EOFFSET(15) lies past the message table. */
  lemma PullHostLookupRecordsUndefined(n: Node, env: Env)
    requires OneRow(env.pullRows).None?
    ensures StatRecord(RunStep(Prepare, n, env).0).errorInfo == ErrorCode.UNDEFINED_MESSAGE
    ensures StatRecord(RunStep(Prepare, n, env).0).status == "failed"
  {
    ErrorCode.CodeMessages();
  }
}
