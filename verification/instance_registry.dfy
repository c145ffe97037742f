/** The registry of local database instances (Instance_info): the meta,
    storage and computer lists, their reload from the cluster manager's
    answer, removal, the auto-pullup wait, and the keepalive pass that asks
    for an instance to be started when its probe fails. Connections, the
    HTTP post and the database probes themselves are inputs. */
module InstanceRegistry {
  import opened Wrappers
  import opened CStr
  import opened JsonTree

  /** pullup_wait_const: the wait an instance gets after a failed probe. */
  const PULLUP_WAIT_CONST: int := 9
  /** stmt_retries: the attempts get_mysql_alive and get_pgsql_alive make. */
  const STMT_RETRIES: nat := 3

  const INT_MAX: int := 0x7fff_ffff
  const INT_MIN: int := -0x8000_0000

  datatype Kind = NoKind | Meta | Storage | Computer

  /** Instance: where the instance listens, how to log in, the cluster
      placement the cluster manager reports, and the auto-pullup wait
      (0: probed on every pass; positive: counting down, not probed). */
  datatype Instance = Instance(
    kind: Kind, ip: string, port: int, user: string, pwd: string,
    cluster: string, shard: string, comp: string, pullupWait: int)

  datatype Registry = Registry(meta: seq<Instance>, storage: seq<Instance>, computer: seq<Instance>)

  /** Instance::Instance: the placement fields start empty and the wait at 0. */
  function NewInstance(kind: Kind, ip: string, port: int, user: string, pwd: string): (r: Instance)
    ensures r.kind == kind && r.ip == ip && r.port == port && r.user == user && r.pwd == pwd
    ensures r.pullupWait == 0
  {
    Instance(kind, ip, port, user, pwd, "", "", "", 0)
  }

  function List(reg: Registry, kind: Kind): seq<Instance> {
    match kind
    case Meta => reg.meta
    case Storage => reg.storage
    case Computer => reg.computer
    case NoKind => []
  }

  // ---------------------------------------------------------------------------
  // Searching

  /** What a search compares: the port alone (set_auto_pullup) or ip and
      port together (remove_*_instance). */
  datatype Key = ByPort(port: int) | ByAddr(ip: string, port: int)

  predicate Matches(inst: Instance, key: Key) {
    match key
    case ByPort(p) => inst.port == p
    case ByAddr(ip, p) => inst.ip == ip && inst.port == p
  }

  predicate Listed(l: seq<Instance>, key: Key) {
    exists i :: 0 <= i < |l| && Matches(l[i], key)
  }

  /** `i` is the first position of `l` that matches `key`. */
  predicate FirstAt(l: seq<Instance>, i: int, key: Key) {
    0 <= i < |l| && Matches(l[i], key) && forall j :: 0 <= j < i ==> !Matches(l[j], key)
  }

  /** The front-to-back scan the registry's loops make. */
  function First(l: seq<Instance>, key: Key): (r: Option<nat>)
    ensures r.Some? ==> FirstAt(l, r.value, key)
    ensures r.None? ==> !Listed(l, key)
    decreases |l|
  {
    if l == [] then None
    else if Matches(l[0], key) then Some(0)
    else match First(l[1..], key)
      case None => assert forall i :: 1 <= i < |l| ==> l[i] == l[1..][i - 1]; None
      case Some(k) => assert forall i :: 1 <= i <= k + 1 ==> l[i] == l[1..][i - 1]; Some(k + 1)
  }

  /** The number of instances of `l` that match `key`. */
  function Count(l: seq<Instance>, key: Key): (n: nat)
    ensures n <= |l|
    decreases |l|
  {
    if l == [] then 0 else (if Matches(l[0], key) then 1 else 0) + Count(l[1..], key)
  }

  // ---------------------------------------------------------------------------
  // set_auto_pullup

  /** `b` holds the instances of `a`, in order, with only the waits changed. */
  predicate SameExceptWaits(a: seq<Instance>, b: seq<Instance>) {
    |a| == |b| && forall i :: 0 <= i < |a| ==> b[i] == a[i].(pullupWait := b[i].pullupWait)
  }

  function WithWaitAll(l: seq<Instance>, seconds: int): (r: seq<Instance>)
    ensures SameExceptWaits(l, r)
    ensures forall i :: 0 <= i < |r| ==> r[i].pullupWait == seconds
  {
    seq(|l|, i requires 0 <= i < |l| => l[i].(pullupWait := seconds))
  }

  function WithWaitAt(l: seq<Instance>, k: nat, seconds: int): (r: seq<Instance>)
    requires k < |l|
    ensures SameExceptWaits(l, r)
  {
    l[k := l[k].(pullupWait := seconds)]
  }

  /** set_auto_pullup(seconds, port): a port of 0 or below sets the wait of
      every instance; any other port sets it on the first instance with that
      port, looking through meta, then storage, then computer. */
  function SetAutoPullup(reg: Registry, seconds: int, port: int): (r: Registry)
    ensures SameExceptWaits(reg.meta, r.meta) && SameExceptWaits(reg.storage, r.storage)
    ensures SameExceptWaits(reg.computer, r.computer)
    ensures port <= 0 ==>
      (forall i :: 0 <= i < |r.meta| ==> r.meta[i].pullupWait == seconds) &&
      (forall i :: 0 <= i < |r.storage| ==> r.storage[i].pullupWait == seconds) &&
      (forall i :: 0 <= i < |r.computer| ==> r.computer[i].pullupWait == seconds)
    ensures port > 0 ==> forall i :: 0 <= i < |r.meta| ==>
      r.meta[i] == (if FirstAt(reg.meta, i, ByPort(port)) then reg.meta[i].(pullupWait := seconds) else reg.meta[i])
    ensures port > 0 ==> forall i :: 0 <= i < |r.storage| ==>
      r.storage[i] == (if !Listed(reg.meta, ByPort(port)) && FirstAt(reg.storage, i, ByPort(port))
                       then reg.storage[i].(pullupWait := seconds) else reg.storage[i])
    ensures port > 0 ==> forall i :: 0 <= i < |r.computer| ==>
      r.computer[i] == (if !Listed(reg.meta, ByPort(port)) && !Listed(reg.storage, ByPort(port))
                          && FirstAt(reg.computer, i, ByPort(port))
                        then reg.computer[i].(pullupWait := seconds) else reg.computer[i])
  {
    if port <= 0 then
      Registry(WithWaitAll(reg.meta, seconds), WithWaitAll(reg.storage, seconds), WithWaitAll(reg.computer, seconds))
    else
      match First(reg.meta, ByPort(port))
      case Some(k) => reg.(meta := WithWaitAt(reg.meta, k, seconds))
      case None =>
        match First(reg.storage, ByPort(port))
        case Some(k) => reg.(storage := WithWaitAt(reg.storage, k, seconds))
        case None =>
          match First(reg.computer, ByPort(port))
          case Some(k) => reg.(computer := WithWaitAt(reg.computer, k, seconds))
          case None => reg
  }

  /** The instances an operation leaves registered: every (kind list, ip,
      port, login) entry, ignoring waits. */
  function Entries(l: seq<Instance>): (r: seq<Instance>)
    ensures |r| == |l|
  {
    seq(|l|, i requires 0 <= i < |l| => l[i].(pullupWait := 0))
  }

  /** set_auto_pullup never adds, drops or reorders instances, and setting
      the same wait twice is the same as setting it once. */
  lemma SetAutoPullupKeepsEntries(reg: Registry, seconds: int, port: int)
    ensures var r := SetAutoPullup(reg, seconds, port);
      Entries(r.meta) == Entries(reg.meta) && Entries(r.storage) == Entries(reg.storage)
      && Entries(r.computer) == Entries(reg.computer)
    ensures SetAutoPullup(SetAutoPullup(reg, seconds, port), seconds, port) == SetAutoPullup(reg, seconds, port)
  {
    var r := SetAutoPullup(reg, seconds, port);
    SameExceptWaitsEntries(reg.meta, r.meta);
    SameExceptWaitsEntries(reg.storage, r.storage);
    SameExceptWaitsEntries(reg.computer, r.computer);
    var r2 := SetAutoPullup(r, seconds, port);
    if port > 0 {
      SameExceptWaitsKeys(reg.meta, r.meta, ByPort(port));
      SameExceptWaitsKeys(reg.storage, r.storage, ByPort(port));
      SameExceptWaitsKeys(reg.computer, r.computer, ByPort(port));
    }
    assert r2.meta == r.meta;
    assert r2.storage == r.storage;
    assert r2.computer == r.computer;
  }

  lemma SameExceptWaitsEntries(a: seq<Instance>, b: seq<Instance>)
    requires SameExceptWaits(a, b)
    ensures Entries(a) == Entries(b)
  {
    assert forall i :: 0 <= i < |a| ==> Entries(a)[i] == Entries(b)[i];
  }

  /** Changing waits changes no port or address, so every search finds the
      same positions. */
  lemma SameExceptWaitsKeys(a: seq<Instance>, b: seq<Instance>, key: Key)
    requires SameExceptWaits(a, b)
    ensures forall i :: FirstAt(a, i, key) <==> FirstAt(b, i, key)
    ensures Listed(a, key) <==> Listed(b, key)
  {
    assert forall i :: 0 <= i < |a| ==> (Matches(a[i], key) <==> Matches(b[i], key));
  }

  // ---------------------------------------------------------------------------
  // remove_storage_instance / remove_computer_instance

  /** vector::erase of the first instance matching `key`; nothing when none does. */
  function RemoveFirst(l: seq<Instance>, key: Key): (r: seq<Instance>)
    ensures !Listed(l, key) ==> r == l
    ensures forall k :: FirstAt(l, k, key) ==> r == l[..k] + l[k + 1..]
  {
    match First(l, key)
    case None => l
    case Some(k) =>
      assert forall k' :: FirstAt(l, k', key) ==> k' == k;
      l[..k] + l[k + 1..]
  }

  /** remove_storage_instance(ip, port): the first storage instance at that
      address, else the first meta one; computer instances are never
      touched. */
  function RemoveStorage(reg: Registry, ip: string, port: int): (r: Registry)
    ensures r.computer == reg.computer
    ensures Listed(reg.storage, ByAddr(ip, port)) ==>
      r.meta == reg.meta && r.storage == RemoveFirst(reg.storage, ByAddr(ip, port))
    ensures !Listed(reg.storage, ByAddr(ip, port)) ==>
      r.storage == reg.storage && r.meta == RemoveFirst(reg.meta, ByAddr(ip, port))
  {
    if First(reg.storage, ByAddr(ip, port)).Some? then
      reg.(storage := RemoveFirst(reg.storage, ByAddr(ip, port)))
    else
      reg.(meta := RemoveFirst(reg.meta, ByAddr(ip, port)))
  }

  /** remove_computer_instance(ip, port): the first computer instance at
      that address; the other lists stay as they are. */
  function RemoveComputer(reg: Registry, ip: string, port: int): (r: Registry)
    ensures r.meta == reg.meta && r.storage == reg.storage
    ensures !Listed(reg.computer, ByAddr(ip, port)) ==> r.computer == reg.computer
    ensures forall k :: FirstAt(reg.computer, k, ByAddr(ip, port)) ==>
      r.computer == reg.computer[..k] + reg.computer[k + 1..]
  {
    reg.(computer := RemoveFirst(reg.computer, ByAddr(ip, port)))
  }

  lemma {:induction false} CountAppend(a: seq<Instance>, b: seq<Instance>, key: Key)
    ensures Count(a + b, key) == Count(a, key) + Count(b, key)
    decreases |a|
  {
    if a == [] {
      assert a + b == b;
    } else {
      assert (a + b)[1..] == a[1..] + b;
      CountAppend(a[1..], b, key);
    }
  }

  lemma {:induction false} CountZero(l: seq<Instance>, key: Key)
    ensures Count(l, key) == 0 <==> !Listed(l, key)
    decreases |l|
  {
    if l != [] {
      CountZero(l[1..], key);
      assert forall i :: 1 <= i < |l| ==> l[i] == l[1..][i - 1];
      if !Matches(l[0], key) && Listed(l, key) {
        var i :| 0 <= i < |l| && Matches(l[i], key);
        assert Matches(l[1..][i - 1], key);
      }
    }
  }

  /** Erasing the first match takes exactly one matching instance away when
      there is one, and keeps every other instance in order. */
  lemma RemoveFirstCount(l: seq<Instance>, key: Key)
    ensures Count(RemoveFirst(l, key), key) == if Listed(l, key) then Count(l, key) - 1 else Count(l, key)
    ensures |RemoveFirst(l, key)| == if Listed(l, key) then |l| - 1 else |l|
    ensures multiset(RemoveFirst(l, key)) <= multiset(l)
  {
    match First(l, key)
    case None =>
    case Some(k) => EraseCount(l, k, key);
  }

  /** Erasing the first match at `k`, counted piece by piece. */
  lemma EraseCount(l: seq<Instance>, k: nat, key: Key)
    requires FirstAt(l, k, key)
    ensures Count(l[..k] + l[k + 1..], key) == Count(l, key) - 1
    ensures multiset(l[..k] + l[k + 1..]) <= multiset(l)
  {
    var a, b := l[..k], l[k + 1..];
    assert l == a + ([l[k]] + b);
    CountAppend(a, [l[k]] + b, key);
    CountAppend(a, b, key);
    assert ([l[k]] + b)[1..] == b;
    assert !Listed(a, key) by {
      assert forall j :: 0 <= j < k ==> a[j] == l[j];
    }
    CountZero(a, key);
  }

  /** remove_storage_instance takes away exactly one meta or storage
      instance at the address when there is one, and none otherwise; a
      computer instance at the same address stays registered. */
  lemma RemoveStorageCount(reg: Registry, ip: string, port: int)
    ensures var r := RemoveStorage(reg, ip, port);
      var key := ByAddr(ip, port);
      Count(r.meta, key) + Count(r.storage, key) ==
        if Count(reg.meta, key) + Count(reg.storage, key) > 0
        then Count(reg.meta, key) + Count(reg.storage, key) - 1 else 0
    ensures RemoveStorage(reg, ip, port).computer == reg.computer
  {
    var key := ByAddr(ip, port);
    RemoveFirstCount(reg.storage, key);
    RemoveFirstCount(reg.meta, key);
    CountZero(reg.storage, key);
    CountZero(reg.meta, key);
  }

  // ---------------------------------------------------------------------------
  // Liveness probes

  /** What one attempt of a probe got to: no connection, a failed
      `select version()`, a statement with no row, or a row. */
  datatype Probe = ConnectFailed | StatementFailed | NoRow | Row

  /** get_mysql_alive stops retrying once a row is fetched, whatever version
      it names; get_pgsql_alive stops once the statement runs, whatever it
      returns. */
  predicate Answered(p: Probe, pg: bool) {
    p.Row? || (pg && p.NoRow?)
  }

  /** get_mysql_alive (pg false) and get_pgsql_alive (pg true): the
      `while(retry--)` loop over the outcomes of up to three attempts. The
      instance is alive iff some attempt is answered; `used` counts the
      attempts made. */
  method ProbeAlive(tries: seq<Probe>, pg: bool) returns (alive: bool, used: nat)
    requires |tries| == STMT_RETRIES
    ensures alive <==> exists i :: 0 <= i < |tries| && Answered(tries[i], pg)
    ensures alive ==> 1 <= used <= |tries| && FirstAnswer(tries, pg, used - 1)
    ensures !alive ==> used == |tries|
  {
    var retry: int := STMT_RETRIES;
    var stop := false;
    used := 0;
    while !stop
      invariant 0 <= used <= |tries|
      invariant !stop ==> retry == |tries| - used
      invariant !stop ==> forall j :: 0 <= j < used ==> !Answered(tries[j], pg)
      invariant stop && retry >= 0 ==> 1 <= used && FirstAnswer(tries, pg, used - 1)
      invariant stop && retry < 0 ==> used == |tries| && forall j :: 0 <= j < used ==> !Answered(tries[j], pg)
      decreases if stop then 0 else retry + 1
    {
      var test := retry;
      retry := retry - 1;
      if test == 0 {
        stop := true;
      } else {
        used := used + 1;
        if Answered(tries[used - 1], pg) {
          stop := true;
        }
      }
    }
    alive := retry >= 0;
  }

  predicate FirstAnswer(tries: seq<Probe>, pg: bool, i: int) {
    0 <= i < |tries| && Answered(tries[i], pg) && forall j :: 0 <= j < i ==> !Answered(tries[j], pg)
  }

  // ---------------------------------------------------------------------------
  // keepalive_instance

  /** A start request keepalive_instance makes: job_control_storage(port, 2)
      for meta and storage instances, job_control_computer(ip, port, 2) for
      computer ones. */
  datatype StartRequest = StartStorage(port: int) | StartComputer(ip: string, port: int)

  function Max0(x: int): int { if x < 0 then 0 else x }

  /** One instance in one keepalive pass, given what its probe would say: a
      positive wait counts down by the pass interval (never below 0) and the
      instance is not probed; otherwise a failed probe sets the wait to
      pullup_wait_const and asks for a start (the bool). */
  function KeepaliveStep(inst: Instance, interval: int, alive: bool): (r: (Instance, bool))
    ensures r.0 == inst.(pullupWait := r.0.pullupWait)
    ensures inst.pullupWait > 0 ==> !r.1 && r.0.pullupWait == Max0(inst.pullupWait - interval)
    ensures inst.pullupWait <= 0 ==> (r.1 <==> !alive)
    ensures inst.pullupWait <= 0 && !alive ==> r.0.pullupWait == PULLUP_WAIT_CONST
    ensures inst.pullupWait <= 0 && alive ==> r.0 == inst
  {
    if inst.pullupWait > 0 then (inst.(pullupWait := Max0(inst.pullupWait - interval)), false)
    else if !alive then (inst.(pullupWait := PULLUP_WAIT_CONST), true)
    else (inst, false)
  }

  function RequestFor(inst: Instance): StartRequest {
    if inst.kind == Computer then StartComputer(inst.ip, inst.port) else StartStorage(inst.port)
  }

  /** One keepalive pass over a list, `alive[i]` being what the probe of
      instance `i` would report: the updated list and the start requests in
      list order. */
  function KeepaliveList(l: seq<Instance>, interval: int, alive: seq<bool>): (r: (seq<Instance>, seq<StartRequest>))
    requires |alive| == |l|
    ensures |r.0| == |l| && |r.1| <= |l|
    ensures forall i :: 0 <= i < |l| ==> r.0[i] == KeepaliveStep(l[i], interval, alive[i]).0
    decreases |l|
  {
    if l == [] then ([], [])
    else
      var step := KeepaliveStep(l[0], interval, alive[0]);
      var rest := KeepaliveList(l[1..], interval, alive[1..]);
      assert forall i :: 1 <= i < |l| ==> l[i] == l[1..][i - 1] && alive[i] == alive[1..][i - 1];
      ([step.0] + rest.0, (if step.1 then [RequestFor(l[0])] else []) + rest.1)
  }

  /** keepalive_instance: one pass over meta, storage and computer, in that
      order. */
  function Keepalive(reg: Registry, interval: int, metaAlive: seq<bool>, storageAlive: seq<bool>,
                     computerAlive: seq<bool>): (r: (Registry, seq<StartRequest>))
    requires |metaAlive| == |reg.meta| && |storageAlive| == |reg.storage| && |computerAlive| == |reg.computer|
    ensures SameExceptWaits(reg.meta, r.0.meta) && SameExceptWaits(reg.storage, r.0.storage)
    ensures SameExceptWaits(reg.computer, r.0.computer)
    ensures |r.1| <= |reg.meta| + |reg.storage| + |reg.computer|
  {
    var m := KeepaliveList(reg.meta, interval, metaAlive);
    var s := KeepaliveList(reg.storage, interval, storageAlive);
    var c := KeepaliveList(reg.computer, interval, computerAlive);
    (Registry(m.0, s.0, c.0), m.1 + s.1 + c.1)
  }

  /** A start is requested for an instance exactly when it was not waiting
      and its probe failed, and for nothing else. */
  lemma {:induction false} KeepaliveListRequests(l: seq<Instance>, interval: int, alive: seq<bool>, q: StartRequest)
    requires |alive| == |l|
    ensures q in KeepaliveList(l, interval, alive).1 <==>
      exists i :: 0 <= i < |l| && l[i].pullupWait <= 0 && !alive[i] && q == RequestFor(l[i])
    decreases |l|
  {
    if l != [] {
      KeepaliveListRequests(l[1..], interval, alive[1..], q);
      assert forall i :: 1 <= i < |l| ==> l[i] == l[1..][i - 1] && alive[i] == alive[1..][i - 1];
      if exists i :: 0 <= i < |l| && l[i].pullupWait <= 0 && !alive[i] && q == RequestFor(l[i]) {
        var i :| 0 <= i < |l| && l[i].pullupWait <= 0 && !alive[i] && q == RequestFor(l[i]);
        if i > 0 {
          assert l[1..][i - 1].pullupWait <= 0 && !alive[1..][i - 1];
        }
      }
    }
  }

  /** After a port-less set_auto_pullup with a positive wait, the next
      keepalive pass asks for no start whatever the probes would say: this
      is how a control job keeps the keepalive thread from restarting an
      instance it is stopping. */
  lemma PausedPassRequestsNothing(reg: Registry, seconds: int, interval: int,
                                  metaAlive: seq<bool>, storageAlive: seq<bool>, computerAlive: seq<bool>)
    requires seconds > 0
    requires |metaAlive| == |reg.meta| && |storageAlive| == |reg.storage| && |computerAlive| == |reg.computer|
    ensures Keepalive(SetAutoPullup(reg, seconds, 0), interval, metaAlive, storageAlive, computerAlive).1 == []
  {
    var p := SetAutoPullup(reg, seconds, 0);
    var k := Keepalive(p, interval, metaAlive, storageAlive, computerAlive);
    NoRequestWhileWaiting(p.meta, interval, metaAlive);
    NoRequestWhileWaiting(p.storage, interval, storageAlive);
    NoRequestWhileWaiting(p.computer, interval, computerAlive);
  }

  lemma NoRequestWhileWaiting(l: seq<Instance>, interval: int, alive: seq<bool>)
    requires |alive| == |l|
    requires forall i :: 0 <= i < |l| ==> l[i].pullupWait > 0
    ensures KeepaliveList(l, interval, alive).1 == []
  {
    var reqs := KeepaliveList(l, interval, alive).1;
    if reqs != [] {
      KeepaliveListRequests(l, interval, alive, reqs[0]);
    }
  }

  /** The instance after `n` passes in which its probe always answers. */
  function Passes(inst: Instance, interval: int, n: nat): Instance
    decreases n
  {
    if n == 0 then inst else KeepaliveStep(Passes(inst, interval, n - 1), interval, true).0
  }

  /** The countdown: with a non-negative interval, a wait `w` is
      max(0, w - n * interval) after `n` passes, so probing resumes after
      the first pass that brings it to 0. */
  lemma {:induction false} CountdownAfter(inst: Instance, interval: int, n: nat)
    requires interval >= 0 && inst.pullupWait >= 0
    ensures Passes(inst, interval, n).pullupWait == Max0(inst.pullupWait - n * interval)
    ensures Passes(inst, interval, n) == inst.(pullupWait := Passes(inst, interval, n).pullupWait)
    decreases n
  {
    if n > 0 {
      CountdownAfter(inst, interval, n - 1);
      assert (n - 1) * interval + interval == n * interval;
    }
  }

  /** A failed probe silences an instance: on a pass with interval `t > 0`
      it is probed again only after ⌈9 / t⌉ passes. */
  lemma RestartSilence(inst: Instance, interval: int, n: nat)
    requires interval > 0 && inst.pullupWait <= 0
    ensures var after := KeepaliveStep(inst, interval, false).0;
      Passes(after, interval, n).pullupWait > 0 <==> n * interval < PULLUP_WAIT_CONST
  {
    var after := KeepaliveStep(inst, interval, false).0;
    CountdownAfter(after, interval, n);
  }

  // ---------------------------------------------------------------------------
  // Reload: get_meta_instance / get_storage_instance / get_computer_instance

  /** The prefix of the answer's keys for each list: "meta_instance0",
      "meta_instance1", ... */
  function ListName(kind: Kind): string {
    match kind
    case Meta => "meta_instance"
    case Storage => "storage_instance"
    case Computer => "computer_instance"
    case NoKind => ""
  }

  function NodeKey(kind: Kind, n: nat): string {
    ListName(kind) + NatToString(n)
  }

  /** cJSON's valueint: a number saturated to the int range; the parser
      sets it to 1 for `true`, and it stays 0 for anything else. */
  function ValueInt(v: Value): (n: int)
    ensures INT_MIN <= n <= INT_MAX
    ensures v.Number? && INT_MIN <= v.n <= INT_MAX ==> n == v.n
    ensures v == Bool(true) ==> n == 1
    ensures !v.Number? && v != Bool(true) ==> n == 0
  {
    match v
    case Number(x) => if x >= INT_MAX then INT_MAX else if x <= INT_MIN then INT_MIN else x
    case Bool(b) => if b then 1 else 0
    case _ => 0
  }

  /** The placement members a node of each list carries after the login ones. */
  function Extras(kind: Kind): seq<string> {
    match kind
    case Storage => ["cluster", "shard"]
    case Computer => ["cluster", "comp"]
    case _ => []
  }

  predicate HasLogin(item: Value) {
    IsMember(item, "ip") && IsMember(item, "port") && IsMember(item, "user") && IsMember(item, "pwd")
  }

  predicate Complete(kind: Kind, item: Value) {
    HasLogin(item) && forall k :: 0 <= k < |Extras(kind)| ==> IsMember(item, Extras(kind)[k])
  }

  function Field(item: Value, key: string, present: bool): string {
    if present then AsString(Member(item, key)) else ""
  }

  /** The instance a node with the login members yields. Storage and
      computer nodes are appended before their placement members are read,
      so one missing "cluster" leaves both placement fields empty, and a
      missing second member leaves that one empty. */
  function NodeOf(kind: Kind, item: Value): (r: Instance)
    requires HasLogin(item)
    ensures r.kind == kind && r.pullupWait == 0
  {
    var base := NewInstance(kind, AsString(Member(item, "ip")), ValueInt(Member(item, "port")),
                            AsString(Member(item, "user")), AsString(Member(item, "pwd")));
    var hasCluster := IsMember(item, "cluster");
    match kind
    case Storage =>
      base.(cluster := Field(item, "cluster", hasCluster), shard := Field(item, "shard", hasCluster && IsMember(item, "shard")))
    case Computer =>
      base.(cluster := Field(item, "cluster", hasCluster), comp := Field(item, "comp", hasCluster && IsMember(item, "comp")))
    case _ => base
  }

  /** The loop over "<list>0", "<list>1", ...: it stops at the first key
      that is missing or lacks a login member, and after the first node
      whose placement members are incomplete. Each read key is dropped from
      `m`, which does not change the later lookups because node keys are
      distinct (NodeKeyInjective). */
  function ReadNodes(kind: Kind, m: map<string, Value>, n: nat): (r: seq<Instance>)
    ensures forall i :: 0 <= i < |r| ==> r[i].kind == kind && r[i].pullupWait == 0
    decreases |m|
  {
    var key := NodeKey(kind, n);
    if key !in m || !HasLogin(m[key]) then []
    else if !Complete(kind, m[key]) then [NodeOf(kind, m[key])]
    else [NodeOf(kind, m[key])] + ReadNodes(kind, m - {key}, n + 1)
  }

  function Members(v: Value): map<string, Value> {
    if v.Object? then v.members else map[]
  }

  /** get_*_instance: `answer` is the parsed reply of the cluster manager,
      None when the post failed three times or the reply does not parse;
      then the list is kept and 0 returned. Otherwise the list is replaced by
      the nodes of the reply, and every reloaded instance is probed on the
      next pass. */
  function LoadList(kind: Kind, answer: Option<Value>, current: seq<Instance>): (r: (seq<Instance>, bool))
    ensures answer.None? ==> r == (current, false)
    ensures answer.Some? ==> r.1
    ensures answer.Some? ==> forall i :: 0 <= i < |r.0| ==> r.0[i].kind == kind && r.0[i].pullupWait == 0
  {
    match answer
    case None => (current, false)
    case Some(root) => (ReadNodes(kind, Members(root), 0), true)
  }

  lemma NatToStringInjective(a: nat, b: nat)
    requires NatToString(a) == NatToString(b)
    ensures a == b
  {
    DigitsValueOfNatToString(a);
    DigitsValueOfNatToString(b);
  }

  lemma NodeKeyInjective(kind: Kind, a: nat, b: nat)
    requires NodeKey(kind, a) == NodeKey(kind, b)
    ensures a == b
  {
    var p := ListName(kind);
    assert NodeKey(kind, a)[|p|..] == NatToString(a);
    assert NodeKey(kind, b)[|p|..] == NatToString(b);
    NatToStringInjective(a, b);
  }

  /** The member a node of `kind` is written as in the cluster manager's answer. */
  function NodeValue(kind: Kind, inst: Instance): Value {
    var login := map["ip" := Text(inst.ip), "port" := Number(inst.port), "user" := Text(inst.user),
                     "pwd" := Text(inst.pwd)];
    match kind
    case Storage => Object(login["cluster" := Text(inst.cluster)]["shard" := Text(inst.shard)])
    case Computer => Object(login["cluster" := Text(inst.cluster)]["comp" := Text(inst.comp)])
    case _ => Object(login)
  }

  /** The answer's members for `insts`, numbered from `n`. */
  function NodesMap(kind: Kind, insts: seq<Instance>, n: nat): (m: map<string, Value>)
    ensures forall key :: key in m ==> exists j :: n <= j < n + |insts| && key == NodeKey(kind, j)
    decreases |insts|
  {
    if insts == [] then map[]
    else NodesMap(kind, insts[1..], n + 1)[NodeKey(kind, n) := NodeValue(kind, insts[0])]
  }

  /** An instance the reload can reproduce: of that kind, not waiting, a
      port in the int range, and no placement field the kind does not have. */
  predicate Loadable(kind: Kind, inst: Instance) {
    inst.kind == kind && inst.pullupWait == 0 && INT_MIN <= inst.port <= INT_MAX
    && (kind != Storage ==> inst.shard == "")
    && (kind != Computer ==> inst.comp == "")
    && (kind == Meta ==> inst.cluster == "")
  }

  lemma NodeOfValue(kind: Kind, inst: Instance)
    requires kind != NoKind && Loadable(kind, inst)
    ensures HasLogin(NodeValue(kind, inst)) && Complete(kind, NodeValue(kind, inst))
    ensures NodeOf(kind, NodeValue(kind, inst)) == inst
  {
  }

  /** Reload reads back the instances the cluster manager lists, in order:
      the reader of get_*_instance inverts the answer's layout. */
  lemma {:induction false} LoadRoundTrip(kind: Kind, insts: seq<Instance>, n: nat)
    requires kind != NoKind
    requires forall i :: 0 <= i < |insts| ==> Loadable(kind, insts[i])
    ensures ReadNodes(kind, NodesMap(kind, insts, n), n) == insts
    decreases |insts|
  {
    if insts == [] {
      assert NodeKey(kind, n) !in NodesMap(kind, insts, n);
    } else {
      NodesMapHead(kind, insts, n);
      NodeOfValue(kind, insts[0]);
      LoadRoundTrip(kind, insts[1..], n + 1);
      HeadTail(insts);
    }
  }

  /** The first node of the answer sits under key `n`, and the others are
      the answer for the rest numbered from `n + 1`. */
  lemma NodesMapHead(kind: Kind, insts: seq<Instance>, n: nat)
    requires insts != []
    ensures var m := NodesMap(kind, insts, n);
      NodeKey(kind, n) in m && m[NodeKey(kind, n)] == NodeValue(kind, insts[0])
      && m - {NodeKey(kind, n)} == NodesMap(kind, insts[1..], n + 1)
  {
    var key := NodeKey(kind, n);
    var rest := NodesMap(kind, insts[1..], n + 1);
    if key in rest {
      var j :| n + 1 <= j < n + 1 + |insts[1..]| && key == NodeKey(kind, j);
      NodeKeyInjective(kind, n, j);
    }
  }

  lemma HeadTail<T>(s: seq<T>)
    requires s != []
    ensures s == [s[0]] + s[1..]
  {
  }

  // ---------------------------------------------------------------------------
  // get_local_instance

  /** The lists get_local_instance(root) reloads: all three without an
      "instance_type" member, the named one for "meta_instance",
      "storage_instance" or "computer_instance", none for anything else. */
  function Refreshed(root: Value): (r: set<Kind>)
    ensures !IsMember(root, "instance_type") ==> r == {Meta, Storage, Computer}
    ensures forall k :: k != NoKind && IsMember(root, "instance_type") ==>
      (k in r <==> AsString(Member(root, "instance_type")) == ListName(k))
    ensures NoKind !in r
  {
    if !IsMember(root, "instance_type") then {Meta, Storage, Computer}
    else
      var t := AsString(Member(root, "instance_type"));
      if t == "meta_instance" then {Meta}
      else if t == "storage_instance" then {Storage}
      else if t == "computer_instance" then {Computer}
      else {}
  }

  /** get_local_instance(root), given what each reload would receive: the
      lists it names are reloaded, the others are untouched. */
  function GetLocalInstance(reg: Registry, root: Value, metaAnswer: Option<Value>,
                            storageAnswer: Option<Value>, computerAnswer: Option<Value>): (r: Registry)
    ensures r.meta == if Meta in Refreshed(root) then LoadList(Meta, metaAnswer, reg.meta).0 else reg.meta
    ensures r.storage == if Storage in Refreshed(root) then LoadList(Storage, storageAnswer, reg.storage).0 else reg.storage
    ensures r.computer == if Computer in Refreshed(root) then LoadList(Computer, computerAnswer, reg.computer).0 else reg.computer
  {
    var kinds := Refreshed(root);
    Registry(
      if Meta in kinds then LoadList(Meta, metaAnswer, reg.meta).0 else reg.meta,
      if Storage in kinds then LoadList(Storage, storageAnswer, reg.storage).0 else reg.storage,
      if Computer in kinds then LoadList(Computer, computerAnswer, reg.computer).0 else reg.computer)
  }

  function TypeRoot(kind: Kind): Value {
    Object(map["instance_type" := Text(ListName(kind))])
  }

  /** A request without "instance_type" does what the three single-list
      requests do one after another, and an unknown type changes nothing. */
  lemma RefreshAllIsEachList(reg: Registry, root: Value, ma: Option<Value>, sa: Option<Value>, ca: Option<Value>)
    requires !IsMember(root, "instance_type")
    ensures GetLocalInstance(reg, root, ma, sa, ca) ==
      GetLocalInstance(GetLocalInstance(GetLocalInstance(reg, TypeRoot(Meta), ma, sa, ca),
                                        TypeRoot(Storage), ma, sa, ca), TypeRoot(Computer), ma, sa, ca)
  {
    assert Refreshed(TypeRoot(Meta)) == {Meta};
    assert Refreshed(TypeRoot(Storage)) == {Storage};
    assert Refreshed(TypeRoot(Computer)) == {Computer};
  }

  lemma UnknownTypeKeepsRegistry(reg: Registry, root: Value, ma: Option<Value>, sa: Option<Value>, ca: Option<Value>)
    requires IsMember(root, "instance_type")
    requires AsString(Member(root, "instance_type")) !in {"meta_instance", "storage_instance", "computer_instance"}
    ensures GetLocalInstance(reg, root, ma, sa, ca) == reg
  {
    assert Refreshed(root) == {} by {
      assert ListName(Meta) == "meta_instance";
    }
  }
}
