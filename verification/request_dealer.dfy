/** RequestDealer: one cluster-manager request from its JSON text to the
    JSON response. ParseRequest checks the protocol fields and routes the
    job type, Deal runs the handler for the type, FetchResponse shapes the
    answer; executeCommand builds the command line for a local utility.

    What the dealer asks of the rest of the node manager (the job and
    instance handlers, the JSON reader, the utility directory listing,
    absolute-path conversion, the bidirectional popen) arrives as an
    Outside value. */
module RequestDealer {
  import opened Wrappers
  import opened Bytes
  import opened CStr
  import opened JsonTree
  import MetaInfo

  /** The dealer's fields. The source leaves request_type_ uninitialised
      until protocalValid sets it; the model starts it at Undefined. */
  datatype Dealer = Dealer(
    root: Value,
    requestType: MetaInfo.RequestType,
    err: string,
    dealSuccess: bool,
    dealInfo: string,
    executeCommand: string)

  /** The constructor: nothing parsed, no success yet. */
  function NewDealer(): (d: Dealer)
    ensures !d.dealSuccess && d.err == "" && d.dealInfo == ""
  {
    Dealer(Null, MetaInfo.Undefined, "", false, "", "")
  }

  // ---------------------------------------------------------------------------
  // Parsing and validation

  const ERR_REQUEST_ID_MISSING: string := "'cluster_mgr_request_id' field is missing"
  const ERR_JOB_TYPE_MISSING: string := "'job_type' field is missing"
  const ERR_PARAS_MISSING: string := "'paras' field missing"
  const ERR_JOB_TYPE_MISSING_AGAIN: string := "'job_type' field missing"
  const ERR_JOB_TYPE_UNSUPPORTED: string := "'job_type' no support"

  /** The request type that the job_type member names. */
  function JobTypeOf(root: Value): MetaInfo.RequestType {
    MetaInfo.GetReqTypeEnumByStr(MetaInfo.CBytes(AsString(Member(root, "job_type"))))
  }

  /** protocalValid: the three required members, checked in order, and a
      job type that maps to a request type. */
  function ProtocalValid(d: Dealer): (r: (bool, Dealer))
    ensures r.0 <==> IsMember(d.root, "cluster_mgr_request_id") && IsMember(d.root, "job_type")
                     && IsMember(d.root, "paras") && JobTypeOf(d.root) != MetaInfo.Max
    ensures r.0 ==> MetaInfo.RecognizedRequestType(r.1.requestType) && r.1.requestType == JobTypeOf(d.root)
    ensures !IsMember(d.root, "cluster_mgr_request_id") ==> r.1.err == ERR_REQUEST_ID_MISSING
    ensures IsMember(d.root, "cluster_mgr_request_id") && !IsMember(d.root, "job_type") ==>
              r.1.err == ERR_JOB_TYPE_MISSING
    ensures (IsMember(d.root, "cluster_mgr_request_id") && IsMember(d.root, "job_type")
             && !IsMember(d.root, "paras")) ==> r.1.err == ERR_PARAS_MISSING
    ensures (IsMember(d.root, "cluster_mgr_request_id") && IsMember(d.root, "job_type")
             && IsMember(d.root, "paras") && JobTypeOf(d.root) == MetaInfo.Max) ==>
              r.1.err == ERR_JOB_TYPE_UNSUPPORTED
    ensures r.1.root == d.root && r.1.dealSuccess == d.dealSuccess && r.1.dealInfo == d.dealInfo
    ensures r.0 ==> r.1.err == d.err
  {
    if !IsMember(d.root, "cluster_mgr_request_id") then (false, d.(err := ERR_REQUEST_ID_MISSING))
    else if !IsMember(d.root, "job_type") then (false, d.(err := ERR_JOB_TYPE_MISSING))
    else if !IsMember(d.root, "paras") then (false, d.(err := ERR_PARAS_MISSING))
    else if !IsMember(d.root, "job_type") then (false, d.(err := ERR_JOB_TYPE_MISSING_AGAIN))
    else
      var t := JobTypeOf(d.root);
      MetaInfo.RecognizedTypesExcludeEnds(t);
      if t == MetaInfo.Max then (false, d.(requestType := t, err := ERR_JOB_TYPE_UNSUPPORTED))
      else (true, d.(requestType := t))
  }

  /** ParseRequest: a text the JSON reader rejects fails with the reader's
      message; a parsed one is validated. */
  function ParseRequest(d: Dealer, parsed: Parsed): (r: (bool, Dealer))
    ensures !parsed.ok ==> !r.0 && r.1.err == parsed.message
    ensures parsed.ok ==> r == ProtocalValid(d.(root := parsed.root))
    ensures r.1.root == parsed.root
  {
    var d1 := d.(root := parsed.root);
    if !parsed.ok then (false, d1.(err := parsed.message)) else ProtocalValid(d1)
  }

  // ---------------------------------------------------------------------------
  // What the handlers report

  /** The outcomes the dealer cannot compute itself:
      - jobOk/jobInfo: what the Job or Instance_info handler for the type
        returned and left in deal_info_;
      - utilAbsPath, tmpAbsPath, cwdAbsPath: ConvertToAbsolutePath of the
        util directory, the tmp-data directory and "./" ("" on failure);
      - utils, listError: GetFileListFromPath's listing and error text;
      - launchOk, childStatus, popenErr: BiodirectPopen::Launch("rw");
      - stderrLine: the first line fgets reads from the child's stderr;
      - metaOk, storageOk, computerOk: the three instance refreshes. */
  datatype Outside = Outside(
    jobOk: bool, jobInfo: string,
    utilAbsPath: string, tmpAbsPath: string, cwdAbsPath: string,
    utils: seq<string>, listError: Option<string>,
    launchOk: bool, childStatus: int32, popenErr: string,
    stderrLine: Option<string>,
    metaOk: bool, storageOk: bool, computerOk: bool)

  // ---------------------------------------------------------------------------
  // The command line

  const PLACE_HOLDER: string := "TMP_DATA_PATH_PLACE_HOLDER"

  /** The loop of constructCommand: the name and a space, then the
      parameters with one space between neighbours. */
  method ParaStr(name: string, params: seq<string>) returns (s: string)
    ensures s == name + " " + Join(params, " ")
  {
    s := name + " ";
    var i := 0;
    while i < |params|
      invariant 0 <= i <= |params|
      invariant s == name + " " + Join(params[..i], " ")
    {
      if i > 0 {
        JoinSnoc(params[..i], params[i]);
        assert params[..i + 1] == params[..i] + [params[i]];
        s := s + " ";
        s := s + params[i];
      } else {
        assert params[..1] == [params[0]];
        s := s + params[i];
      }
      i := i + 1;
    }
    assert params[..i] == params;
  }

  lemma {:induction false} JoinSnoc(parts: seq<string>, p: string)
    requires |parts| > 0
    ensures Join(parts + [p], " ") == Join(parts, " ") + " " + p
    decreases |parts|
  {
    var q := parts + [p];
    assert q[0] == parts[0];
    if |parts| > 1 {
      assert q[1..] == parts[1..] + [p];
      JoinSnoc(parts[1..], p);
      assert Join(q, " ") == parts[0] + " " + (Join(parts[1..], " ") + " " + p);
    } else {
      assert q[1..] == [p];
      assert Join(q, " ") == parts[0] + " " + p;
    }
  }

  /** The tmp-data path the placeholder stands for: the converted path, or
      the current directory when conversion failed. */
  function TmpDataPath(o: Outside): string {
    if o.tmpAbsPath == "" then o.cwdAbsPath else o.tmpAbsPath
  }

  /** constructCommand: the command line, prefixed with the util directory
      when the command is one of the utilities there, with the placeholder
      replaced by the tmp-data path; and the error text, if the listing
      failed. */
  function ConstructCommand(paras: Value, o: Outside): (r: (string, Option<string>))
    ensures r.1 == o.listError
    ensures
      var name := AsString(Member(paras, "command_name"));
      var line := name + " " + Join(ElementStrings(Member(paras, "command_para")), " ");
      r.0 == ReplaceAll(if name in o.utils then o.utilAbsPath + "/" + line else line,
                        PLACE_HOLDER, TmpDataPath(o))
  {
    var name := AsString(Member(paras, "command_name"));
    var line := name + " " + Join(ElementStrings(Member(paras, "command_para")), " ");
    var full := if name in o.utils then o.utilAbsPath + "/" + line else line;
    (ReplaceAll(full, PLACE_HOLDER, TmpDataPath(o)), o.listError)
  }

  /** The words of the command line are the command name and then its
      parameters, when no word is empty or holds a space, the line holds no
      placeholder, and the command is not one of the local utilities. */
  lemma CommandWords(paras: Value, o: Outside, name: string, params: seq<string>)
    requires AsString(Member(paras, "command_name")) == name && name !in o.utils
    requires ElementStrings(Member(paras, "command_para")) == params
    requires |name| > 0 && NoneOf(name, {' '})
    requires forall k :: 0 <= k < |params| ==> |params[k]| > 0 && NoneOf(params[k], {' '})
    requires forall j :: !OccursAt(name + " " + Join(params, " "), PLACE_HOLDER, j)
    ensures Tokenize(ConstructCommand(paras, o).0, {' '}) == [name] + params
  {
    var words := [name] + params;
    var line := name + " " + Join(params, " ");
    assert ConstructCommand(paras, o).0 == line;
    assert words[1..] == params;
    if |params| == 0 {
      assert line == name + " ";
      TrailingSpace(name);
    } else {
      assert Join(words, " ") == line;
      assert " " == [' '];
      TokenizeJoin(words, ' ', {' '});
    }
  }

  lemma TrailingSpace(name: string)
    requires |name| > 0 && NoneOf(name, {' '})
    ensures Tokenize(name + " ", {' '}) == [name]
  {
    TokenizeFromAppend(name, " ", {' '}, "");
    assert "" + name == name;
    assert " "[1..] == "";
  }

  // ---------------------------------------------------------------------------
  // The handlers

  /** pingPong */
  function PingPong(d: Dealer): (r: (bool, Dealer))
    ensures r.0 && r.1.dealSuccess && r.1.dealInfo == "success"
    ensures r.1.err == d.err && r.1.root == d.root
  {
    (true, d.(dealSuccess := true, dealInfo := "success"))
  }

  /** executeCommand: build the command, start it, and succeed only if it
      started and wrote nothing to stderr. */
  function ExecuteCommand(d: Dealer, o: Outside): (r: (bool, Dealer))
    ensures r.1.executeCommand == ConstructCommand(Member(d.root, "paras"), o).0
    ensures r.0 <==> o.launchOk && o.stderrLine.None?
    ensures r.0 ==> r.1.dealSuccess && r.1.dealInfo == "success"
    ensures !r.0 ==> r.1.dealSuccess == d.dealSuccess && r.1.dealInfo == d.dealInfo
    ensures !o.launchOk ==>
              r.1.err == "child return code: " + IntToString(o.childStatus) + ", " + o.popenErr
    ensures o.launchOk && o.stderrLine.Some? ==>
              r.1.err == "stderr: " + o.stderrLine.value + ", return code: " + IntToString(o.childStatus)
  {
    var (cmd, listErr) := ConstructCommand(Member(d.root, "paras"), o);
    var d1 := d.(executeCommand := cmd, err := if listErr.Some? then listErr.value else d.err);
    if !o.launchOk then
      (false, d1.(err := "child return code: " + IntToString(o.childStatus) + ", " + o.popenErr))
    else if o.stderrLine.Some? then
      (false, d1.(err := "stderr: " + o.stderrLine.value + ", return code: " + IntToString(o.childStatus)))
    else
      (true, d1.(dealSuccess := true, dealInfo := "success"))
  }

  function InstanceType(d: Dealer): string {
    AsString(Member(Member(d.root, "paras"), "instance_type"))
  }

  /** updateInstance: refresh the list the instance_type names; any other
      type leaves deal_success_ as it was. */
  function UpdateInstance(d: Dealer, o: Outside): (r: (bool, Dealer))
    ensures r.0 == r.1.dealSuccess
    ensures r.1 == d.(dealSuccess := r.1.dealSuccess)
    ensures InstanceType(d) !in {"meta_instance", "storage_instance", "computer_instance"} ==> r.1 == d
  {
    var t := InstanceType(d);
    var ok :=
      if t == "meta_instance" then o.metaOk
      else if t == "storage_instance" then o.storageOk
      else if t == "computer_instance" then o.computerOk
      else d.dealSuccess;
    (ok, d.(dealSuccess := ok))
  }

  /** A handler that reports through the Job or Instance_info singleton. */
  function Delegate(d: Dealer, o: Outside): (r: (bool, Dealer))
    ensures r.0 == r.1.dealSuccess == o.jobOk && r.1.dealInfo == o.jobInfo
    ensures r.1.err == d.err && r.1.root == d.root
  {
    (o.jobOk, d.(dealSuccess := o.jobOk, dealInfo := o.jobInfo))
  }

  /** The request types Deal has a handler for. */
  predicate Handled(t: MetaInfo.RequestType) {
    t != MetaInfo.Undefined && t != MetaInfo.CheckPortIdle && t != MetaInfo.Max
  }

  const UNRECOGNIZED: string := "Unrecongnized job type"

  /** Deal: run the handler for the request type. */
  function Deal(d: Dealer, o: Outside): (r: (bool, Dealer))
    ensures !Handled(d.requestType) ==> !r.0 && r.1 == d.(err := UNRECOGNIZED)
    ensures Handled(d.requestType) ==> r.0 == r.1.dealSuccess || (!r.0 && r.1.dealSuccess == d.dealSuccess)
    ensures r.1.root == d.root && r.1.requestType == d.requestType
  {
    match d.requestType
    case PingPong => PingPong(d)
    case ExecuteCommand => ExecuteCommand(d, o)
    case UpdateInstance => UpdateInstance(d, o)
    case GetPathsSpace => Delegate(d, o)
    case InstallStorage => Delegate(d, o)
    case InstallComputer => Delegate(d, o)
    case DeleteStorage => Delegate(d, o)
    case DeleteComputer => Delegate(d, o)
    case BackupShard => Delegate(d, o)
    case RestoreStorage => Delegate(d, o)
    case RestoreComputer => Delegate(d, o)
    case ControlInstance => Delegate(d, o)
    case NodeExporter => Delegate(d, o)
    case _ => (false, d.(err := UNRECOGNIZED))
  }

  /** check_port_idle is a recognised job type, yet Deal has no handler for
      it and reports it unrecognised. */
  lemma CheckPortIdleUnhandled(d: Dealer, o: Outside)
    requires d.requestType == MetaInfo.CheckPortIdle
    ensures MetaInfo.RecognizedRequestType(d.requestType)
    ensures Deal(d, o) == (false, d.(err := UNRECOGNIZED))
  {
  }

  /** Thirteen types have handlers: the recognised ones but check_port_idle. */
  lemma HandledTypes(t: MetaInfo.RequestType)
    ensures Handled(t) <==> MetaInfo.RecognizedRequestType(t) && t != MetaInfo.CheckPortIdle
  {
    MetaInfo.RecognizedTypesExcludeEnds(t);
  }

  /** From a fresh dealer, what Deal returns is the success flag the
      response reports. */
  lemma DealReportsItsResult(d: Dealer, o: Outside)
    requires !d.dealSuccess
    ensures Deal(d, o).0 == Deal(d, o).1.dealSuccess
  {
  }

  // ---------------------------------------------------------------------------
  // The response

  /** getStatusStr */
  function StatusStr(d: Dealer): (s: string)
    ensures s == "success" <==> d.dealSuccess
    ensures s == "failed" <==> !d.dealSuccess
  {
    if d.dealSuccess then "success" else "failed"
  }

  /** getInfo: the error text after a failure, deal_info_ after success. */
  function Info(d: Dealer): (s: string)
    ensures !d.dealSuccess ==> s == d.err
    ensures d.dealSuccess ==> s == d.dealInfo
  {
    if !d.dealSuccess then d.err else d.dealInfo
  }

  /** FetchResponse as a tree: the request id and task_spec_info copied as
      strings, the status, and the info embedded as JSON when it parses
      (infoParsed is the reader's result on the info text) and as a string
      otherwise. */
  function FetchResponse(d: Dealer, infoParsed: Parsed): (r: Value)
    ensures r.Object? && r.members.Keys == {"cluster_mgr_request_id", "task_spec_info", "status", "info"}
    ensures r.members["cluster_mgr_request_id"] == Text(AsString(Member(d.root, "cluster_mgr_request_id")))
    ensures r.members["task_spec_info"] == Text(AsString(Member(d.root, "task_spec_info")))
    ensures AsString(r.members["status"]) == StatusStr(d)
    ensures !infoParsed.ok ==> r.members["info"] == Text(Info(d))
    ensures infoParsed.ok ==> r.members["info"] == infoParsed.root
  {
    Object(map[
      "cluster_mgr_request_id" := Text(AsString(Member(d.root, "cluster_mgr_request_id"))),
      "task_spec_info" := Text(AsString(Member(d.root, "task_spec_info"))),
      "status" := Text(StatusStr(d)),
      "info" := if infoParsed.ok then infoParsed.root else Text(Info(d))])
  }

  /** A request whose job fails answers "failed" with the error text as its
      info (when that text is not itself JSON). */
  lemma FailureAnswered(d: Dealer, o: Outside, infoParsed: Parsed)
    requires !d.dealSuccess && !infoParsed.ok
    requires !Deal(d, o).0
    ensures var r := FetchResponse(Deal(d, o).1, infoParsed);
            AsString(r.members["status"]) == "failed" && r.members["info"] == Text(Deal(d, o).1.err)
  {
    DealReportsItsResult(d, o);
  }
}
