/** Request routing by job type: the 64-bit FNV-1a hash of the job_type
    text (hash_ at run time, hash_compile_time for the case labels), the
    switch in GetReqTypeEnumByStr over the fourteen known names, and the
    recognition predicates built on it.

    The C string is a sequence of bytes ending at the first NUL; `char` is
    signed, so a byte of 0x80 or more is sign-extended before it is XORed
    into the hash. */
module MetaInfo {

  /** ClusterRequestTypes, from kRequestTypeUndefined to kRequestTypeMax,
      the fourteen request types in between in the order of the switch. */
  datatype RequestType =
    | Undefined
    | PingPong | ExecuteCommand | GetPathsSpace | CheckPortIdle
    | InstallStorage | InstallComputer | DeleteStorage | DeleteComputer
    | BackupShard | RestoreStorage | RestoreComputer | ControlInstance
    | UpdateInstance | NodeExporter
    | Max

  /** The enumerator's value. */
  function Ordinal(t: RequestType): (n: nat)
    ensures t == Undefined <==> n == 0
    ensures t == Max <==> n == 15
    ensures n <= 15
  {
    match t
    case Undefined => 0
    case PingPong => 1
    case ExecuteCommand => 2
    case GetPathsSpace => 3
    case CheckPortIdle => 4
    case InstallStorage => 5
    case InstallComputer => 6
    case DeleteStorage => 7
    case DeleteComputer => 8
    case BackupShard => 9
    case RestoreStorage => 10
    case RestoreComputer => 11
    case ControlInstance => 12
    case UpdateInstance => 13
    case NodeExporter => 14
    case Max => 15
  }

  // ---------------------------------------------------------------------------
  // FNV-1a

  const PRIME: bv64 := 0x100000001B3
  const BASIS: bv64 := 0xCBF29CE484222325

  /** A signed char converted to the 64-bit hash type. */
  function Widen(c: bv8): bv64 {
    if c < 0x80 then c as bv64 else (c as bv64) | 0xFFFF_FFFF_FFFF_FF00
  }

  /** The character mixed into the hash. */
  function XorIn(h: bv64, c: bv8): bv64 {
    Widen(c) ^ h
  }

  /** Multiplication by the FNV prime, mod 2^64. */
  function MulPrime(x: bv64): bv64 {
    x * PRIME
  }

  /** One round: xor the character in, multiply by the prime. */
  function HashStep(h: bv64, c: bv8): bv64 {
    MulPrime(XorIn(h, c))
  }

  /** hash_compile_time: the hash of the C string `s`, continuing from
      `last`. */
  function CompileTimeHash(s: seq<bv8>, last: bv64): bv64
    decreases |s|
  {
    if |s| == 0 || s[0] == 0 then last else CompileTimeHash(s[1..], HashStep(last, s[0]))
  }

  /** The hash of a C string, starting from the offset basis. */
  function HashOf(s: seq<bv8>): bv64 {
    CompileTimeHash(s, BASIS)
  }

  /** hash_: the same hash by a loop over the characters up to the NUL. */
  method Hash(s: seq<bv8>) returns (h: bv64)
    ensures h == HashOf(s)
  {
    h := BASIS;
    var i := 0;
    while i < |s| && s[i] != 0
      invariant 0 <= i <= |s|
      invariant forall k :: 0 <= k < i ==> s[k] != 0
      invariant CompileTimeHash(s[i..], h) == HashOf(s)
    {
      assert s[i..][1..] == s[i + 1..];
      h := HashStep(h, s[i]);
      i := i + 1;
    }
  }

  /** Only the bytes before the first NUL count. */
  lemma {:induction false} HashStopsAtNul(s: seq<bv8>, rest: seq<bv8>, last: bv64)
    requires 0 !in s
    ensures CompileTimeHash(s + [0] + rest, last) == CompileTimeHash(s, last)
    decreases |s|
  {
    if |s| == 0 {
      assert (s + [0] + rest)[0] == 0;
    } else {
      assert (s + [0] + rest)[1..] == s[1..] + [0] + rest;
      HashStopsAtNul(s[1..], rest, HashStep(last, s[0]));
    }
  }

  // ---------------------------------------------------------------------------
  // The case labels

  /** "ping_pong" */
  const PING_PONG: seq<bv8> := [0x70, 0x69, 0x6e, 0x67] + [0x5f, 0x70, 0x6f, 0x6e] + [0x67]

  /** "execute_command" */
  const EXECUTE_COMMAND: seq<bv8> := [0x65, 0x78, 0x65, 0x63] + [0x75, 0x74, 0x65, 0x5f] + [0x63, 0x6f, 0x6d, 0x6d] + [0x61, 0x6e, 0x64]

  /** "get_paths_space" */
  const GET_PATHS_SPACE: seq<bv8> := [0x67, 0x65, 0x74, 0x5f] + [0x70, 0x61, 0x74, 0x68] + [0x73, 0x5f, 0x73, 0x70] + [0x61, 0x63, 0x65]

  /** "check_port_idle" */
  const CHECK_PORT_IDLE: seq<bv8> := [0x63, 0x68, 0x65, 0x63] + [0x6b, 0x5f, 0x70, 0x6f] + [0x72, 0x74, 0x5f, 0x69] + [0x64, 0x6c, 0x65]

  /** "install_storage" */
  const INSTALL_STORAGE: seq<bv8> := [0x69, 0x6e, 0x73, 0x74] + [0x61, 0x6c, 0x6c, 0x5f] + [0x73, 0x74, 0x6f, 0x72] + [0x61, 0x67, 0x65]

  /** "install_computer" */
  const INSTALL_COMPUTER: seq<bv8> := [0x69, 0x6e, 0x73, 0x74] + [0x61, 0x6c, 0x6c, 0x5f] + [0x63, 0x6f, 0x6d, 0x70] + [0x75, 0x74, 0x65, 0x72]

  /** "delete_storage" */
  const DELETE_STORAGE: seq<bv8> := [0x64, 0x65, 0x6c, 0x65] + [0x74, 0x65, 0x5f, 0x73] + [0x74, 0x6f, 0x72, 0x61] + [0x67, 0x65]

  /** "delete_computer" */
  const DELETE_COMPUTER: seq<bv8> := [0x64, 0x65, 0x6c, 0x65] + [0x74, 0x65, 0x5f, 0x63] + [0x6f, 0x6d, 0x70, 0x75] + [0x74, 0x65, 0x72]

  /** "backup_shard" */
  const BACKUP_SHARD: seq<bv8> := [0x62, 0x61, 0x63, 0x6b] + [0x75, 0x70, 0x5f, 0x73] + [0x68, 0x61, 0x72, 0x64]

  /** "restore_storage" */
  const RESTORE_STORAGE: seq<bv8> := [0x72, 0x65, 0x73, 0x74] + [0x6f, 0x72, 0x65, 0x5f] + [0x73, 0x74, 0x6f, 0x72] + [0x61, 0x67, 0x65]

  /** "restore_computer" */
  const RESTORE_COMPUTER: seq<bv8> := [0x72, 0x65, 0x73, 0x74] + [0x6f, 0x72, 0x65, 0x5f] + [0x63, 0x6f, 0x6d, 0x70] + [0x75, 0x74, 0x65, 0x72]

  /** "control_instance" */
  const CONTROL_INSTANCE: seq<bv8> := [0x63, 0x6f, 0x6e, 0x74] + [0x72, 0x6f, 0x6c, 0x5f] + [0x69, 0x6e, 0x73, 0x74] + [0x61, 0x6e, 0x63, 0x65]

  /** "update_instance" */
  const UPDATE_INSTANCE: seq<bv8> := [0x75, 0x70, 0x64, 0x61] + [0x74, 0x65, 0x5f, 0x69] + [0x6e, 0x73, 0x74, 0x61] + [0x6e, 0x63, 0x65]

  /** "node_exporter" */
  const NODE_EXPORTER: seq<bv8> := [0x6e, 0x6f, 0x64, 0x65] + [0x5f, 0x65, 0x78, 0x70] + [0x6f, 0x72, 0x74, 0x65] + [0x72]

  /** The case labels of the switch, in order, and the type each selects. */
  const NAMES: seq<seq<bv8>> := [
    PING_PONG, EXECUTE_COMMAND, GET_PATHS_SPACE, CHECK_PORT_IDLE,
    INSTALL_STORAGE, INSTALL_COMPUTER, DELETE_STORAGE, DELETE_COMPUTER,
    BACKUP_SHARD, RESTORE_STORAGE, RESTORE_COMPUTER, CONTROL_INSTANCE,
    UPDATE_INSTANCE, NODE_EXPORTER]

  const TYPES: seq<RequestType> := [
    PingPong, ExecuteCommand, GetPathsSpace, CheckPortIdle,
    InstallStorage, InstallComputer, DeleteStorage, DeleteComputer,
    BackupShard, RestoreStorage, RestoreComputer, ControlInstance,
    UpdateInstance, NodeExporter]

  /** The case labels' values, "name"_hash for each name. */
  function Labels(names: seq<seq<bv8>>): (r: seq<bv64>)
    ensures |r| == |names|
    ensures forall k :: 0 <= k < |names| ==> r[k] == HashOf(names[k])
  {
    seq(|names|, k requires 0 <= k < |names| => HashOf(names[k]))
  }

  const LABELS: seq<bv64> := Labels(NAMES)

  /** The switch from label `i` on: the type of the first label equal to
      `h`, or kRequestTypeMax from the default branch. */
  function Switch(h: bv64, labels: seq<bv64>, types: seq<RequestType>, i: nat): (t: RequestType)
    requires |labels| == |types| && i <= |labels|
    ensures h !in labels[i..] ==> t == Max
    ensures h in labels[i..] ==>
              exists k :: i <= k < |labels| && labels[k] == h && h !in labels[i..k] && t == types[k]
    decreases |labels| - i
  {
    if i == |labels| then Max
    else if labels[i] == h then
      assert h !in labels[i..i];
      types[i]
    else
      assert labels[i..] == [labels[i]] + labels[i + 1..];
      var t := Switch(h, labels, types, i + 1);
      assert forall k :: i + 1 <= k < |labels| ==> labels[i..k] == [labels[i]] + labels[i + 1..k];
      t
  }

  /** The switch of GetReqTypeEnumByStr on an already computed hash. */
  function GetReqTypeEnumByHash(h: bv64): (t: RequestType)
    ensures t != Undefined
    ensures t == Max <==> h !in LABELS
    ensures t != Max ==> exists k :: 0 <= k < |LABELS| && LABELS[k] == h && TYPES[k] == t
  {
    assert forall k :: 0 <= k < |TYPES| ==> TYPES[k] != Max && TYPES[k] != Undefined;
    assert LABELS[0..] == LABELS;
    Switch(h, LABELS, TYPES, 0)
  }

  /** GetReqTypeEnumByStr: the type whose label equals the hash of `s`, or
      kRequestTypeMax; kRequestTypeUndefined is never the answer. */
  function GetReqTypeEnumByStr(s: seq<bv8>): (t: RequestType)
    ensures t != Undefined
    ensures t == Max <==> HashOf(s) !in LABELS
  {
    GetReqTypeEnumByHash(HashOf(s))
  }

  /** RecognizedRequestType: strictly between Undefined and Max. */
  predicate RecognizedRequestType(t: RequestType) {
    Ordinal(Undefined) < Ordinal(t) < Ordinal(Max)
  }

  /** RecognizedJobTypeStr */
  function RecognizedJobTypeStr(s: seq<bv8>): (b: bool)
    ensures b <==> HashOf(s) in LABELS
  {
    RecognizedRequestType(GetReqTypeEnumByStr(s))
  }

  lemma RecognizedTypesExcludeEnds(t: RequestType)
    ensures RecognizedRequestType(t) <==> t != Undefined && t != Max
  {
  }

  /** Exactly the fourteen request types are recognised. */
  lemma RecognizedTypes(t: RequestType)
    ensures RecognizedRequestType(t) <==> t in TYPES
  {
  }

  // ---------------------------------------------------------------------------
  // The labels hash apart

  /** The low byte of a hash. */
  function Low(h: bv64): bv8 {
    (h & 0xFF) as bv8
  }

  /** One round of the hash seen in its low byte: the low byte of a product
      and of a xor depends only on the low bytes of the operands. */
  function LowStep(l: bv8, c: bv8): bv8 {
    (l ^ c) * 0xB3
  }

  function LowFrom(s: seq<bv8>, l: bv8): bv8
    decreases |s|
  {
    if |s| == 0 || s[0] == 0 then l else LowFrom(s[1..], LowStep(l, s[0]))
  }

  lemma LowMul(x: bv64)
    ensures Low(MulPrime(x)) == Low(x) * 0xB3
  {
  }

  lemma LowXorIn(h: bv64, c: bv8)
    ensures Low(XorIn(h, c)) == Low(h) ^ c
  {
  }

  lemma LowOfStep(h: bv64, c: bv8)
    ensures Low(HashStep(h, c)) == LowStep(Low(h), c)
  {
    LowXorIn(h, c);
    LowMul(XorIn(h, c));
  }

  /** The low byte of the hash follows the byte-wide recurrence. */
  lemma {:induction false} LowOfHash(s: seq<bv8>, h: bv64)
    ensures Low(CompileTimeHash(s, h)) == LowFrom(s, Low(h))
    decreases |s|
  {
    if |s| > 0 && s[0] != 0 {
      var h1 := HashStep(h, s[0]);
      LowOfStep(h, s[0]);
      LowOfHash(s[1..], h1);
      assert CompileTimeHash(s, h) == CompileTimeHash(s[1..], h1);
      assert LowFrom(s, Low(h)) == LowFrom(s[1..], Low(h1));
    }
  }

  lemma {:induction false} LowFromAppend(a: seq<bv8>, b: seq<bv8>, l: bv8)
    requires 0 !in a
    ensures LowFrom(a + b, l) == LowFrom(b, LowFrom(a, l))
    decreases |a|
  {
    if |a| > 0 {
      assert (a + b)[0] == a[0];
      assert (a + b)[1..] == a[1..] + b;
      LowFromAppend(a[1..], b, LowStep(l, a[0]));
    } else {
      assert a + b == b;
    }
  }

  lemma Low3Chunks(a: seq<bv8>, b: seq<bv8>, c: seq<bv8>, l: bv8, la: bv8, lb: bv8, lc: bv8)
    requires 0 !in a && 0 !in b
    requires LowFrom(a, l) == la && LowFrom(b, la) == lb && LowFrom(c, lb) == lc
    ensures LowFrom(a + b + c, l) == lc
  {
    LowFromAppend(a, b, l);
    LowFromAppend(a + b, c, l);
  }

  lemma Low4Chunks(a: seq<bv8>, b: seq<bv8>, c: seq<bv8>, d: seq<bv8>,
                   l: bv8, la: bv8, lb: bv8, lc: bv8, ld: bv8)
    requires 0 !in a && 0 !in b && 0 !in c
    requires LowFrom(a, l) == la && LowFrom(b, la) == lb && LowFrom(c, lb) == lc
    requires LowFrom(d, lc) == ld
    ensures LowFrom(a + b + c + d, l) == ld
  {
    Low3Chunks(a, b, c, l, la, lb, lc);
    LowFromAppend(a + b + c, d, l);
  }

  lemma NameLow3(a: seq<bv8>, b: seq<bv8>, c: seq<bv8>, la: bv8, lb: bv8, lc: bv8)
    requires 0 !in a && 0 !in b
    requires LowFrom(a, 0x25) == la && LowFrom(b, la) == lb && LowFrom(c, lb) == lc
    ensures Low(HashOf(a + b + c)) == lc
  {
    LowOfHash(a + b + c, BASIS);
    Low3Chunks(a, b, c, 0x25, la, lb, lc);
  }

  lemma NameLow4(a: seq<bv8>, b: seq<bv8>, c: seq<bv8>, d: seq<bv8>, la: bv8, lb: bv8, lc: bv8, ld: bv8)
    requires 0 !in a && 0 !in b && 0 !in c
    requires LowFrom(a, 0x25) == la && LowFrom(b, la) == lb && LowFrom(c, lb) == lc
    requires LowFrom(d, lc) == ld
    ensures Low(HashOf(a + b + c + d)) == ld
  {
    LowOfHash(a + b + c + d, BASIS);
    Low4Chunks(a, b, c, d, 0x25, la, lb, lc, ld);
  }

  lemma PingPongLow()
    ensures Low(HashOf(PING_PONG)) == 24
  {
    NameLow3([0x70, 0x69, 0x6e, 0x67], [0x5f, 0x70, 0x6f, 0x6e], [0x67], 169, 239, 24);
  }

  lemma ExecuteCommandLow()
    ensures Low(HashOf(EXECUTE_COMMAND)) == 146
  {
    NameLow4([0x65, 0x78, 0x65, 0x63], [0x75, 0x74, 0x65, 0x5f], [0x63, 0x6f, 0x6d, 0x6d], [0x61, 0x6e, 0x64], 92, 165, 169, 146);
  }

  lemma GetPathsSpaceLow()
    ensures Low(HashOf(GET_PATHS_SPACE)) == 177
  {
    NameLow4([0x67, 0x65, 0x74, 0x5f], [0x70, 0x61, 0x74, 0x68], [0x73, 0x5f, 0x73, 0x70], [0x61, 0x63, 0x65], 120, 79, 130, 177);
  }

  lemma CheckPortIdleLow()
    ensures Low(HashOf(CHECK_PORT_IDLE)) == 14
  {
    NameLow4([0x63, 0x68, 0x65, 0x63], [0x6b, 0x5f, 0x70, 0x6f], [0x72, 0x74, 0x5f, 0x69], [0x64, 0x6c, 0x65], 22, 133, 119, 14);
  }

  lemma InstallStorageLow()
    ensures Low(HashOf(INSTALL_STORAGE)) == 238
  {
    NameLow4([0x69, 0x6e, 0x73, 0x74], [0x61, 0x6c, 0x6c, 0x5f], [0x73, 0x74, 0x6f, 0x72], [0x61, 0x67, 0x65], 121, 173, 55, 238);
  }

  lemma InstallComputerLow()
    ensures Low(HashOf(INSTALL_COMPUTER)) == 64
  {
    NameLow4([0x69, 0x6e, 0x73, 0x74], [0x61, 0x6c, 0x6c, 0x5f], [0x63, 0x6f, 0x6d, 0x70], [0x75, 0x74, 0x65, 0x72], 121, 173, 242, 64);
  }

  lemma DeleteStorageLow()
    ensures Low(HashOf(DELETE_STORAGE)) == 36
  {
    NameLow4([0x64, 0x65, 0x6c, 0x65], [0x74, 0x65, 0x5f, 0x73], [0x74, 0x6f, 0x72, 0x61], [0x67, 0x65], 93, 148, 212, 36);
  }

  lemma DeleteComputerLow()
    ensures Low(HashOf(DELETE_COMPUTER)) == 78
  {
    NameLow4([0x64, 0x65, 0x6c, 0x65], [0x74, 0x65, 0x5f, 0x63], [0x6f, 0x6d, 0x70, 0x75], [0x74, 0x65, 0x72], 93, 100, 187, 78);
  }

  lemma BackupShardLow()
    ensures Low(HashOf(BACKUP_SHARD)) == 120
  {
    NameLow3([0x62, 0x61, 0x63, 0x6b], [0x75, 0x70, 0x5f, 0x73], [0x68, 0x61, 0x72, 0x64], 2, 9, 120);
  }

  lemma RestoreStorageLow()
    ensures Low(HashOf(RESTORE_STORAGE)) == 15
  {
    NameLow4([0x72, 0x65, 0x73, 0x74], [0x6f, 0x72, 0x65, 0x5f], [0x73, 0x74, 0x6f, 0x72], [0x61, 0x67, 0x65], 215, 106, 108, 15);
  }

  lemma RestoreComputerLow()
    ensures Low(HashOf(RESTORE_COMPUTER)) == 231
  {
    NameLow4([0x72, 0x65, 0x73, 0x74], [0x6f, 0x72, 0x65, 0x5f], [0x63, 0x6f, 0x6d, 0x70], [0x75, 0x74, 0x65, 0x72], 215, 106, 25, 231);
  }

  lemma ControlInstanceLow()
    ensures Low(HashOf(CONTROL_INSTANCE)) == 48
  {
    NameLow4([0x63, 0x6f, 0x6e, 0x74], [0x72, 0x6f, 0x6c, 0x5f], [0x69, 0x6e, 0x73, 0x74], [0x61, 0x6e, 0x63, 0x65], 109, 211, 103, 48);
  }

  lemma UpdateInstanceLow()
    ensures Low(HashOf(UPDATE_INSTANCE)) == 174
  {
    NameLow4([0x75, 0x70, 0x64, 0x61], [0x74, 0x65, 0x5f, 0x69], [0x6e, 0x73, 0x74, 0x61], [0x6e, 0x63, 0x65], 23, 8, 236, 174);
  }

  lemma NodeExporterLow()
    ensures Low(HashOf(NODE_EXPORTER)) == 171
  {
    NameLow4([0x6e, 0x6f, 0x64, 0x65], [0x5f, 0x65, 0x78, 0x70], [0x6f, 0x72, 0x74, 0x65], [0x72], 173, 105, 91, 171);
  }

  /** The low bytes of the labels' hashes, in the order of NAMES. */
  const LOWS: seq<bv8> := [24, 146, 177, 14, 238, 64, 36, 78, 120, 15, 231, 48, 174, 171]

  lemma FirstLows()
    ensures forall k :: 0 <= k < 7 ==> Low(LABELS[k]) == LOWS[k]
  {
    PingPongLow(); ExecuteCommandLow(); GetPathsSpaceLow(); CheckPortIdleLow();
    InstallStorageLow(); InstallComputerLow(); DeleteStorageLow();
  }

  lemma LastLows()
    ensures forall k :: 7 <= k < |LABELS| ==> Low(LABELS[k]) == LOWS[k]
  {
    DeleteComputerLow(); BackupShardLow(); RestoreStorageLow(); RestoreComputerLow();
    ControlInstanceLow(); UpdateInstanceLow(); NodeExporterLow();
  }

  lemma LowsDistinct()
    ensures forall i, j :: 0 <= i < j < |LOWS| ==> LOWS[i] != LOWS[j]
  {
  }

  /** No two case labels collide, so the switch is well formed. */
  lemma LabelsDistinct()
    ensures forall i, j :: 0 <= i < j < |LABELS| ==> LABELS[i] != LABELS[j]
  {
    FirstLows();
    LastLows();
    LowsDistinct();
  }

  /** With no two labels equal, label `k` is found at position `k`. */
  lemma {:induction false} SwitchFinds(labels: seq<bv64>, types: seq<RequestType>, k: nat, i: nat)
    requires |labels| == |types| && i <= k < |labels|
    requires forall a, b :: 0 <= a < b < |labels| ==> labels[a] != labels[b]
    ensures Switch(labels[k], labels, types, i) == types[k]
    decreases k - i
  {
    if i < k {
      SwitchFinds(labels, types, k, i + 1);
    }
  }

  /** Each of the fourteen names selects its own request type. */
  lemma NamesMapToTypes()
    ensures forall k :: 0 <= k < |NAMES| ==> GetReqTypeEnumByStr(NAMES[k]) == TYPES[k]
  {
    LabelsDistinct();
    forall k | 0 <= k < |NAMES| ensures GetReqTypeEnumByStr(NAMES[k]) == TYPES[k] {
      SwitchFinds(LABELS, TYPES, k, 0);
    }
  }

  /** Every listed name is recognised, check_port_idle included. */
  lemma NamesRecognized()
    ensures forall k :: 0 <= k < |NAMES| ==> RecognizedJobTypeStr(NAMES[k])
  {
    NamesMapToTypes();
  }

  /** A job type is recognised exactly when its hash is one of the labels:
      any other text, and in particular a name outside the list whose hash
      is not a label, is refused. */
  lemma UnlistedRefused(s: seq<bv8>)
    requires forall k :: 0 <= k < |NAMES| ==> HashOf(NAMES[k]) != HashOf(s)
    ensures !RecognizedJobTypeStr(s)
    ensures GetReqTypeEnumByStr(s) == Max
  {
  }

  /** A char of a std::string is one byte. */
  function ByteOf(c: char): bv8 {
    (c as int % 256) as bv8
  }

  /** A std::string as the bytes its c_str() points to. */
  function CBytes(s: string): (b: seq<bv8>)
    ensures |b| == |s|
  {
    seq(|s|, i requires 0 <= i < |s| => ByteOf(s[i]))
  }
}
