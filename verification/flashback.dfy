/** kunlun_flashback: undo the transactions a demoted master committed after
    a given GTID. It picks the last GTID of the old master out of a GTID set,
    asks mysqlbinlog for the binlog position of that GTID, writes and applies
    a flashback script with super_read_only switched off, switches it on
    again and truncates the binlog at the GTID. Processes, the metadata
    connection and the configuration parsers are inputs; the command lines
    are kept as their parameters, not as rendered text. */
module Flashback {
  import opened Wrappers
  import opened CStr
  import opened JsonTree

  // ---------------------------------------------------------------------------
  // get_last_gtid

  /** The first element of the comma-separated set that holds the uuid. */
  function FirstContaining(elems: seq<string>, uuid: string): (r: Option<nat>)
    ensures r.Some? ==> r.value < |elems| && Contains(elems[r.value], uuid)
    ensures r.Some? ==> forall j :: 0 <= j < r.value ==> !Contains(elems[j], uuid)
    ensures r.None? ==> forall j :: 0 <= j < |elems| ==> !Contains(elems[j], uuid)
    decreases |elems|
  {
    if elems == [] then None
    else if Contains(elems[0], uuid) then Some(0)
    else match FirstContaining(elems[1..], uuid)
      case None => None
      case Some(i) => Some(i + 1)
  }

  /** The last GTID of one element "uuid:interval": the element must split
      into exactly two ':' parts; an interval "a-b" gives "uuid:b", a single
      number "a" gives "uuid:a", anything else is refused. */
  function LastOfElement(e: string): (r: Result<string, string>)
    ensures r.Success? ==> ':' in r.value
  {
    var c1 := Tokenize(e, {':'});
    if |c1| != 2 then Failure("misformat gtid")
    else
      var c2 := Tokenize(c1[1], {'-'});
      if |c2| == 2 then Success(c1[0] + [':'] + c2[1])
      else if |c2| == 1 then Success(c1[0] + [':'] + c2[0])
      else Failure("misformat gtid")
  }

  /** get_last_gtid(gtid_set, uuid); a Failure is the process exiting with 1. */
  function GetLastGtid(gtidSet: string, uuid: string): (r: Result<string, string>)
    ensures (forall e :: e in Tokenize(gtidSet, {','}) ==> !Contains(e, uuid)) ==> r.Failure?
    ensures r.Success? ==> ':' in r.value
  {
    var elems := Tokenize(gtidSet, {','});
    match FirstContaining(elems, uuid)
    case None => Failure("miss uuid")
    case Some(i) => LastOfElement(elems[i])
  }

  /** Two parts without the separator split back apart. */
  lemma SplitTwo(x: string, c: char, y: string)
    requires |x| > 0 && |y| > 0 && c !in x && c !in y
    ensures Tokenize(x + [c] + y, {c}) == [x, y]
  {
    assert Join([x, y], [c]) == x + [c] + y;
    TokenizeJoin([x, y], c, {c});
  }

  /** Three parts without the separator split into three. */
  lemma SplitThree(x: string, c: char, y: string, z: string)
    requires |x| > 0 && |y| > 0 && |z| > 0 && c !in x && c !in y && c !in z
    ensures |Tokenize(x + [c] + y + [c] + z, {c})| == 3
  {
    assert Join([x, y, z], [c]) == x + [c] + (y + [c] + z);
    assert x + [c] + (y + [c] + z) == x + [c] + y + [c] + z;
    TokenizeJoin([x, y, z], c, {c});
  }

  /** "uuid:a-b" names b as its last transaction. */
  lemma LastOfInterval(u: string, a: string, b: string)
    requires |u| > 0 && |a| > 0 && |b| > 0
    requires ':' !in u && ':' !in a && ':' !in b && '-' !in a && '-' !in b
    ensures LastOfElement(u + [':'] + (a + ['-'] + b)) == Success(u + [':'] + b)
  {
    SplitTwo(u, ':', a + ['-'] + b);
    SplitTwo(a, '-', b);
  }

  /** "uuid:a" names a itself. */
  lemma LastOfSingle(u: string, a: string)
    requires |u| > 0 && |a| > 0
    requires ':' !in u && ':' !in a && '-' !in a
    ensures LastOfElement(u + [':'] + a) == Success(u + [':'] + a)
  {
    SplitTwo(u, ':', a);
    TokenizeFromNoDelim(a, {'-'}, "", []);
    assert "" + a == a;
  }

  /** A uuid with two intervals ("uuid:1-5:7-9") is refused. */
  lemma SeveralIntervalsRefused(u: string, a: string, b: string)
    requires |u| > 0 && |a| > 0 && |b| > 0
    requires ':' !in u && ':' !in a && ':' !in b
    ensures LastOfElement(u + [':'] + a + [':'] + b).Failure?
  {
    SplitThree(u, ':', a, b);
  }

  /** An interval with more than one '-' is refused. */
  lemma SeveralDashesRefused(u: string, a: string, b: string, c: string)
    requires |u| > 0 && |a| > 0 && |b| > 0 && |c| > 0
    requires ':' !in u && ':' !in a && ':' !in b && ':' !in c
    requires '-' !in a && '-' !in b && '-' !in c
    ensures LastOfElement(u + [':'] + (a + ['-'] + b + ['-'] + c)).Failure?
  {
    var x := a + ['-'] + b + ['-'] + c;
    assert ':' !in x;
    SplitTwo(u, ':', x);
    SplitThree(a, '-', b, c);
  }

  /** The answer is itself a one-transaction element, so reading it again
      gives it back. */
  lemma LastOfElementIdempotent(e: string)
    requires LastOfElement(e).Success?
    ensures LastOfElement(LastOfElement(e).value) == LastOfElement(e)
  {
    var c1 := Tokenize(e, {':'});
    var c2 := Tokenize(c1[1], {'-'});
    TokenPartsFree(e, {':'});
    TokenPartsFree(c1[1], {'-'});
    TokensAvoid(c1[1], {'-'}, ':');
    var last := if |c2| == 2 then c2[1] else c2[0];
    LastOfSingle(c1[0], last);
  }

  /** Every token is non-empty and free of the separators. */
  lemma TokenPartsFree(s: string, delims: set<char>)
    ensures forall k :: 0 <= k < |Tokenize(s, delims)| ==> NoneOf(Tokenize(s, delims)[k], delims)
  {
    TokenizeFromFree(s, delims, "");
  }

  lemma {:induction false} TokenizeFromFree(s: string, delims: set<char>, cur: string)
    requires NoneOf(cur, delims)
    ensures forall k :: 0 <= k < |TokenizeFrom(s, delims, cur)| ==> NoneOf(TokenizeFrom(s, delims, cur)[k], delims)
    decreases |s|
  {
    if s != [] {
      if s[0] in delims {
        TokenizeFromFree(s[1..], delims, "");
      } else {
        assert NoneOf(cur + [s[0]], delims) by {
          forall k | 0 <= k < |cur + [s[0]]| ensures (cur + [s[0]])[k] !in delims {
            if k < |cur| { assert (cur + [s[0]])[k] == cur[k]; }
          }
        }
        TokenizeFromFree(s[1..], delims, cur + [s[0]]);
      }
    }
  }

  /** A character absent from the text is absent from every token. */
  lemma TokensAvoid(s: string, delims: set<char>, c: char)
    requires c !in s
    ensures forall k :: 0 <= k < |Tokenize(s, delims)| ==> c !in Tokenize(s, delims)[k]
  {
    TokenizeFromAvoid(s, delims, "", c);
  }

  lemma {:induction false} TokenizeFromAvoid(s: string, delims: set<char>, cur: string, c: char)
    requires c !in s && c !in cur
    ensures forall k :: 0 <= k < |TokenizeFrom(s, delims, cur)| ==> c !in TokenizeFrom(s, delims, cur)[k]
    decreases |s|
  {
    if s != [] {
      assert c !in s[1..];
      if s[0] in delims {
        TokenizeFromAvoid(s[1..], delims, "", c);
      } else {
        TokenizeFromAvoid(s[1..], delims, cur + [s[0]], c);
      }
    }
  }

  /** For a set "pre…,uuid:a-b,post…" whose earlier elements do not hold the
      uuid, the last GTID is "uuid:b". */
  lemma LastGtidOfSet(pre: seq<string>, u: string, a: string, b: string, post: seq<string>, uuid: string)
    requires |u| > 0 && |a| > 0 && |b| > 0
    requires ':' !in u && ':' !in a && ':' !in b && '-' !in a && '-' !in b
    requires ',' !in u && ',' !in a && ',' !in b
    requires forall k :: 0 <= k < |pre| ==> |pre[k]| > 0 && NoneOf(pre[k], {','}) && !Contains(pre[k], uuid)
    requires forall k :: 0 <= k < |post| ==> |post[k]| > 0 && NoneOf(post[k], {','})
    requires Contains(u + [':'] + (a + ['-'] + b), uuid)
    ensures GetLastGtid(Join(pre + [u + [':'] + (a + ['-'] + b)] + post, [',']), uuid) == Success(u + [':'] + b)
  {
    var e := u + [':'] + (a + ['-'] + b);
    var elems := pre + [e] + post;
    assert NoneOf(e, {','});
    assert forall k :: 0 <= k < |elems| ==> |elems[k]| > 0 && NoneOf(elems[k], {','}) by {
      forall k | 0 <= k < |elems| ensures |elems[k]| > 0 && NoneOf(elems[k], {','}) {
        if k < |pre| { assert elems[k] == pre[k]; }
        else if k > |pre| { assert elems[k] == post[k - |pre| - 1]; }
      }
    }
    TokenizeJoin(elems, ',', {','});
    FirstAt(pre, e, post, uuid);
    LastOfInterval(u, a, b);
  }

  lemma FirstAt(pre: seq<string>, e: string, post: seq<string>, uuid: string)
    requires forall k :: 0 <= k < |pre| ==> !Contains(pre[k], uuid)
    requires Contains(e, uuid)
    ensures FirstContaining(pre + [e] + post, uuid) == Some(|pre|)
  {
    var elems := pre + [e] + post;
    assert elems[|pre|] == e;
    assert forall j :: 0 <= j < |pre| ==> elems[j] == pre[j];
  }

  // ---------------------------------------------------------------------------
  // get_uuid_from_meta and the metadata login

  /** The answer of the node_map_master query: a failed statement, or the
      master_uuid column of every row. */
  datatype Query = QueryFailed | Rows(uuids: seq<string>)

  /** get_uuid_from_meta: a non-empty previous_master_uuid flag is the
      answer and no query runs; otherwise the query must succeed with exactly
      one row. A Failure is the process exiting with 1. */
  function UuidFromMeta(flag: string, query: string -> Query, ipPort: string): (r: Result<string, string>)
    ensures flag != "" ==> r == Success(flag)
    ensures flag == "" ==> (r.Success? <==> query(ipPort).Rows? && |query(ipPort).uuids| == 1)
    ensures flag == "" && r.Success? ==> r.value == query(ipPort).uuids[0]
  {
    if flag != "" then Success(flag)
    else match query(ipPort)
      case QueryFailed => Failure("get uuid from metadata failed")
      case Rows(us) => if |us| != 1 then Failure("result size is not 1") else Success(us[0])
  }

  /** The command-line flags of the tool. meta_port is a 32-bit unsigned flag. */
  datatype Flags = Flags(excludeGtids: string, outputFile: string, generalLogFile: string,
                         metaHost: string, metaPort: nat, metaUser: string, metaPass: string,
                         previousMasterUuid: string)

  datatype Login = Login(host: string, user: string, pass: string)

  /** KConfig::get_config: the value of a key, "" when the file lacks it. */
  function Setting(cfg: map<string, string>, key: string): (v: string)
    ensures key in cfg ==> v == cfg[key]
    ensures key !in cfg ==> v == ""
  {
    if key in cfg then cfg[key] else ""
  }

  const META_USER: string := "meta_user"
  const META_PWD: string := "meta_pwd"
  const META_SEEDS: string := "meta_group_seeds"

  /** The metadata login: from the node_mgr configuration when it parses,
      otherwise from the flags, the host written "host_port". */
  function MetaLogin(cnf: Option<map<string, string>>, f: Flags): (r: Login)
    ensures cnf.Some? ==> r == Login(Setting(cnf.value, META_SEEDS), Setting(cnf.value, META_USER), Setting(cnf.value, META_PWD))
    ensures cnf.None? ==> r.user == f.metaUser && r.pass == f.metaPass
  {
    match cnf
    case Some(c) => Login(Setting(c, META_SEEDS), Setting(c, META_USER), Setting(c, META_PWD))
    case None => Login(f.metaHost + "_" + NatToString(f.metaPort), f.metaUser, f.metaPass)
  }

  /** Without a parsable configuration the host splits back at its last '_'
      into the meta_host flag and the decimal meta_port, whatever the host
      flag holds. */
  lemma FlagHostSplitsBack(f: Flags)
    ensures var h := MetaLogin(None, f).host;
      SplitAtLast(h, '_').0 == f.metaHost && DigitsValue(SplitAtLast(h, '_').1) == f.metaPort
  {
    var p := NatToString(f.metaPort);
    assert '_' !in p by {
      forall k | 0 <= k < |p| ensures p[k] != '_' { assert IsDigit(p[k]); }
    }
    SplitAtLastOfJoin(f.metaHost, '_', p);
    DigitsValueOfNatToString(f.metaPort);
  }

  // ---------------------------------------------------------------------------
  // The binlog position

  /** mysqlbinlog adjusts a start position of 0 to 4, so "0" is replaced by "4". */
  function StartPosition(pos: string): (r: string)
    ensures r != "0"
    ensures pos != "0" ==> r == pos
    ensures pos == "0" ==> Atoi(r) == 4
  {
    if pos == "0" then
      AtoiOfDigits("4", "");
      assert "4" + "" == "4";
      "4"
    else pos
  }

  /** Fixing the position twice is fixing it once. */
  lemma StartPositionIdempotent(pos: string)
    ensures StartPosition(StartPosition(pos)) == StartPosition(pos)
  {
  }

  /** A numeric "pos" member of 0 starts the script at 4, any other number at itself. */
  lemma NumericStartPosition(n: int)
    ensures Atoi(StartPosition(AsString(Number(n)))) == if n == 0 then 4 else n
  {
    var s := AsString(Number(n));
    if n == 0 {
      assert s == "0" by { assert Atoi(s) == 0; ZeroText(n); }
    } else {
      assert s != "0" by { ZeroAtoi(); }
    }
  }

  lemma ZeroAtoi()
    ensures Atoi("0") == 0
  {
    AtoiOfDigits("0", "");
    assert "0" + "" == "0";
  }

  lemma ZeroText(n: int)
    requires n == 0
    ensures AsString(Number(n)) == "0"
  {
  }

  // ---------------------------------------------------------------------------
  // main

  /** The commands the tool launches, by their parameters:
      mysqlbinlog --gtid-to-filepos, mysql "super_read_only=off", mysqlbinlog
      --flashback into the output file, mysql < output file, mysql
      "super_read_only=on", mysqlbinlog --truncate-file-by-gtid. */
  datatype Command =
    | GtidToFilepos(util: string, index: string, gtid: string)
    | ReadOnlyOff(client: string, socket: string)
    | WriteScript(util: string, pos: string, binlog: string, output: string)
    | ApplyScript(client: string, socket: string, output: string)
    | ReadOnlyOn(client: string, socket: string)
    | TruncateBinlog(util: string, index: string, gtid: string)

  /** The place of a command in the run. */
  function Order(c: Command): nat {
    match c
    case GtidToFilepos(_, _, _) => 0
    case ReadOnlyOff(_, _) => 1
    case WriteScript(_, _, _, _) => 2
    case ApplyScript(_, _, _) => 3
    case ReadOnlyOn(_, _) => 4
    case TruncateBinlog(_, _, _) => 5
  }

  /** What BiodirectPopen reports: whether Launch succeeded and whether the
      command wrote to its error output. */
  datatype Launch = Launch(ok: bool, errOutput: bool)

  /** Everything outside the tool: the argument count, the flags, the
      parsed my.cnf (None when it does not parse), the parsed node_mgr
      configuration, whether the metadata connection initialises, the
      node_map_master answer per "ip_port", the launch outcome per command,
      and the JSON printed by the gtid-to-filepos run (None when stdout,
      fgets or the JSON parse fails). */
  datatype Env = Env(argc: int, flags: Flags, etc: Option<map<string, string>>,
                     cnf: Option<map<string, string>>, metaInit: bool,
                     query: string -> Query, launch: Command -> Launch, filepos: Option<Value>)

  /** The exit status and the commands launched, in order. */
  datatype Outcome = Exit(code: int, cmds: seq<Command>) | LogPathUndefined

  /** The log file name: the last '/'-separated token of general_log_file.
      For a path with no token ("" or "/") the source reads before the
      start of the vector; None stands for that. */
  function LogFileName(path: string): (r: Option<string>)
    ensures r.None? <==> Tokenize(path, {'/'}) == []
    ensures r.Some? ==> r.value != "" && '/' !in r.value
  {
    var toks := Tokenize(path, {'/'});
    if toks == [] then None
    else
      TokenPartsFree(path, {'/'});
      assert NoneOf(toks[|toks| - 1], {'/'});
      Some(toks[|toks| - 1])
  }

  /** GetBasePath: the path up to its last '/' (zettalib's own definition
      is not part of this model). */
  function BasePath(path: string): string {
    SplitAtLast(path, '/').0
  }

  const LOG_BIN: string := "log-bin"
  const PLUGIN_DIR: string := "plugin-dir"
  const SOCKET: string := "socket"
  const BIND_ADDRESS: string := "bind_address"
  const PORT: string := "port"
  const FILENAME: string := "filename"
  const POS: string := "pos"

  /** The directories and programs derived from my.cnf. */
  datatype Paths = Paths(index: string, client: string, util: string, socket: string, ipPort: string)

  /** The my.cnf checks: log-bin's directory, plugin-dir and socket must be
      non-empty; the base directory is plugin-dir's directory's directory. */
  function ReadPaths(etc: map<string, string>): (r: Option<Paths>)
    ensures r.Some? ==> r.value.socket != ""
    ensures r.None? <==> BasePath(Setting(etc, LOG_BIN)) == "" || Setting(etc, PLUGIN_DIR) == "" || Setting(etc, SOCKET) == ""
  {
    var binlogDir := BasePath(Setting(etc, LOG_BIN));
    var pluginDir := Setting(etc, PLUGIN_DIR);
    var socket := Setting(etc, SOCKET);
    if binlogDir == "" || pluginDir == "" || socket == "" then None
    else
      var base := BasePath(BasePath(pluginDir));
      Some(Paths(binlogDir + "/binlog.index", base + "/bin/mysql", base + "/bin/mysqlbinlog", socket,
                 Setting(etc, BIND_ADDRESS) + "_" + Setting(etc, PORT)))
  }

  /** The flashback proper, once the GTID is known: each launch that fails
      or writes an error ends the run with 1, except that a failed apply of
      the script is only logged, and the truncation only checks its launch. */
  function Flash(launch: Command -> Launch, filepos: Option<Value>, output: string, p: Paths, gtid: string): (o: Outcome)
    ensures o.Exit? && 1 <= |o.cmds| <= 6
    ensures forall i :: 0 <= i < |o.cmds| ==> Order(o.cmds[i]) == i
    ensures o.code == 0 ==> |o.cmds| == 6
    ensures o.code != 0 ==> o.code == 1
    ensures |o.cmds| == 6 ==> (o.code == 0 <==> launch(o.cmds[5]).ok)
    ensures o.cmds[0] == GtidToFilepos(p.util, p.index, gtid)
    ensures |o.cmds| == 6 ==> o.cmds[5] == TruncateBinlog(p.util, p.index, gtid)
    ensures |o.cmds| >= 3 ==> o.cmds[2].WriteScript? && o.cmds[2].pos != "0"
  {
    var c1 := GtidToFilepos(p.util, p.index, gtid);
    if !launch(c1).ok || filepos.None? then Exit(1, [c1])
    else
      var root := filepos.value;
      var pos := StartPosition(AsString(Member(root, POS)));
      var c2 := ReadOnlyOff(p.client, p.socket);
      if !launch(c2).ok || launch(c2).errOutput then Exit(1, [c1, c2])
      else
        var c3 := WriteScript(p.util, pos, AsString(Member(root, FILENAME)), output);
        if !launch(c3).ok || launch(c3).errOutput then Exit(1, [c1, c2, c3])
        else
          var c4 := ApplyScript(p.client, p.socket, output);
          var c5 := ReadOnlyOn(p.client, p.socket);
          if !launch(c5).ok || launch(c5).errOutput then Exit(1, [c1, c2, c3, c4, c5])
          else
            var c6 := TruncateBinlog(p.util, p.index, gtid);
            if !launch(c6).ok then Exit(1, [c1, c2, c3, c4, c5, c6])
            else Exit(0, [c1, c2, c3, c4, c5, c6])
  }

  /** How far main gets before the first launch: stopped with an exit
      status, stopped on the undefined log path, or ready with the paths
      and the GTID. */
  datatype Prep = Stopped(code: int) | Undefined | Ready(p: Paths, gtid: string)

  /** main up to the first launch: the argument check, the log file name,
      my.cnf, the metadata connection and uuid, the last GTID. A failed
      metadata connection exits with -1, every other failure with 1. */
  function Prepare(e: Env): (r: Prep)
    ensures e.argc < 6 ==> r == Stopped(1)
    ensures r.Stopped? ==> r.code == 1 || (r.code == -1 && !e.metaInit)
    ensures r.Ready? ==> e.argc >= 6 && e.metaInit && e.etc.Some? && ReadPaths(e.etc.value) == Some(r.p)
    ensures r.Ready? ==> var u := UuidFromMeta(e.flags.previousMasterUuid, e.query, r.p.ipPort);
      u.Success? && u.value != "" && GetLastGtid(e.flags.excludeGtids, u.value) == Success(r.gtid)
  {
    if e.argc < 6 then Stopped(1)
    else if LogFileName(e.flags.generalLogFile).None? then Undefined
    else if e.etc.None? then Stopped(1)
    else match ReadPaths(e.etc.value)
      case None => Stopped(1)
      case Some(p) =>
        if !e.metaInit then Stopped(-1)
        else match UuidFromMeta(e.flags.previousMasterUuid, e.query, p.ipPort)
          case Failure(_) => Stopped(1)
          case Success(uuid) =>
            if uuid == "" then Stopped(1)
            else match GetLastGtid(e.flags.excludeGtids, uuid)
              case Failure(_) => Stopped(1)
              case Success(gtid) => Ready(p, gtid)
  }

  /** main: nothing is launched unless every check before the first launch
      passes; the run then exits 0 exactly when all six commands ran. */
  function Main(e: Env): (o: Outcome)
    ensures o.Exit? ==> |o.cmds| <= 6 && forall i :: 0 <= i < |o.cmds| ==> Order(o.cmds[i]) == i
    ensures o.Exit? && o.code == 0 ==> |o.cmds| == 6
    ensures o.Exit? && o.cmds == [] <==> Prepare(e).Stopped?
    ensures o.Exit? && o.cmds != [] ==>
      (Prepare(e).Ready? && o.cmds[0] == GtidToFilepos(Prepare(e).p.util, Prepare(e).p.index, Prepare(e).gtid))
  {
    match Prepare(e)
    case Stopped(code) => Exit(code, [])
    case Undefined => LogPathUndefined
    case Ready(p, gtid) => Flash(e.launch, e.filepos, e.flags.outputFile, p, gtid)
  }

  /** Prepare never reads the launches. */
  lemma PrepareIgnoresLaunch(e: Env, launch: Command -> Launch)
    ensures Prepare(e.(launch := launch)) == Prepare(e)
  {
    var e2 := e.(launch := launch);
    assert e2.argc == e.argc && e2.flags == e.flags && e2.etc == e.etc && e2.metaInit == e.metaInit && e2.query == e.query;
  }

  /** A failed apply of the flashback script does not change the run: its
      outcome is never consulted. */
  lemma ApplyFailureIgnored(e: Env, launch: Command -> Launch)
    requires forall c: Command :: !c.ApplyScript? ==> launch(c) == e.launch(c)
    ensures Main(e.(launch := launch)) == Main(e)
  {
    PrepareIgnoresLaunch(e, launch);
    if Prepare(e).Ready? {
      FlashApplyIgnored(e.launch, launch, e.filepos, e.flags.outputFile, Prepare(e).p, Prepare(e).gtid);
    }
  }

  lemma FlashApplyIgnored(l1: Command -> Launch, l2: Command -> Launch, filepos: Option<Value>, output: string, p: Paths, gtid: string)
    requires forall c: Command :: !c.ApplyScript? ==> l1(c) == l2(c)
    ensures Flash(l1, filepos, output, p, gtid) == Flash(l2, filepos, output, p, gtid)
  {
  }

  /** The truncation's error output is not consulted, only its launch. */
  lemma TruncateErrorOutputIgnored(e: Env, launch: Command -> Launch)
    requires forall c: Command :: launch(c) == (if c.TruncateBinlog? then Launch(e.launch(c).ok, !e.launch(c).errOutput) else e.launch(c))
    ensures Main(e.(launch := launch)) == Main(e)
  {
    PrepareIgnoresLaunch(e, launch);
    if Prepare(e).Ready? {
      FlashTruncateErrorIgnored(e.launch, launch, e.filepos, e.flags.outputFile, Prepare(e).p, Prepare(e).gtid);
    }
  }

  lemma FlashTruncateErrorIgnored(l1: Command -> Launch, l2: Command -> Launch, filepos: Option<Value>, output: string, p: Paths, gtid: string)
    requires forall c: Command :: !c.TruncateBinlog? ==> l1(c) == l2(c)
    requires forall c: Command :: c.TruncateBinlog? ==> l1(c).ok == l2(c).ok
    ensures Flash(l1, filepos, output, p, gtid) == Flash(l2, filepos, output, p, gtid)
  {
  }

  /** With previous_master_uuid given, the metadata answer is never read. */
  lemma UuidFlagSkipsQuery(e: Env, query: string -> Query)
    requires e.flags.previousMasterUuid != ""
    ensures Main(e.(query := query)) == Main(e)
  {
    var e2 := e.(query := query);
    assert e2.argc == e.argc && e2.flags == e.flags && e2.etc == e.etc && e2.metaInit == e.metaInit && e2.launch == e.launch;
    assert Prepare(e2) == Prepare(e);
  }
}
