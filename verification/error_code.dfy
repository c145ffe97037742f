/** The node manager's error numbers: the EOFFSET codes above
    EERROR_NUM_START, GlobalErrorNum, and the table of readable messages
    that get_err_num_str indexes. */
module ErrorCode {
  import opened Wrappers
  import opened Bytes
  import opened CStr

  const EERROR_NUM_START: int := 60000

  /** EOFFSET(n) */
  function EOffset(n: int): (e: int)
    ensures e - EERROR_NUM_START == n
  {
    EERROR_NUM_START + n
  }

  const EOK: int := 0
  const EFAIL: int := EOffset(1)
  const EIVALID_REQUEST_PROTOCAL: int := EOffset(1)
  const EIVALID_RESPONSE_PROTOCAL: int := EOffset(2)

  const RB_NODE_PULL_MYSQL_UNIX_SOCK_ERR: int := EOffset(3)
  const RB_GET_REBUILD_NODE_DIR_ERR: int := EOffset(4)
  const RB_NODE_RBUILD_MYSQL_UNIX_SOCK_ERR: int := EOffset(5)
  const RB_XTRACBACK_DATA_FROM_PULL_HOST_ERR: int := EOffset(6)
  const RB_CHECKSUM_DATA_FROM_PULL_HOST_ERR: int := EOffset(7)
  const RB_BACKUP_REBUILD_NODE_DATA_ERR: int := EOffset(8)
  const RB_CLEARUP_REBUILD_NODE_DATA_ERR: int := EOffset(9)
  const RB_XTRACBACKUP_RECOVER_DATA_ERR: int := EOffset(10)
  const RB_START_MYSQL_ERR: int := EOffset(11)
  const RB_CONNECT_RECOVER_MYSQL_UNIX_ERR: int := EOffset(12)
  const RB_CHANGE_MASTER_SQL_EXECUTE_ERR: int := EOffset(13)
  const RB_GET_XTRABACKUP_GIT_POSITION_ERR: int := EOffset(14)
  const RB_GET_PULLHOST_PARAM_FROM_METADB_ERROR: int := EOffset(15)
  const RB_GET_RBHOST_PARAM_FROM_METADB_ERROR: int := EOffset(16)

  /** The rebuild-node codes, in the order they are defined. */
  const RB_CODES: seq<int> := [
    RB_NODE_PULL_MYSQL_UNIX_SOCK_ERR, RB_GET_REBUILD_NODE_DIR_ERR,
    RB_NODE_RBUILD_MYSQL_UNIX_SOCK_ERR, RB_XTRACBACK_DATA_FROM_PULL_HOST_ERR,
    RB_CHECKSUM_DATA_FROM_PULL_HOST_ERR, RB_BACKUP_REBUILD_NODE_DATA_ERR,
    RB_CLEARUP_REBUILD_NODE_DATA_ERR, RB_XTRACBACKUP_RECOVER_DATA_ERR,
    RB_START_MYSQL_ERR, RB_CONNECT_RECOVER_MYSQL_UNIX_ERR,
    RB_CHANGE_MASTER_SQL_EXECUTE_ERR, RB_GET_XTRABACKUP_GIT_POSITION_ERR,
    RB_GET_PULLHOST_PARAM_FROM_METADB_ERROR, RB_GET_RBHOST_PARAM_FROM_METADB_ERROR]

  /** The rebuild codes are the consecutive values 60003..60016, so no two
      are equal and none is EOK, EFAIL or the response-protocol code. */
  lemma RebuildCodes()
    ensures forall k :: 0 <= k < |RB_CODES| ==> RB_CODES[k] == 60003 + k
    ensures forall i, j :: 0 <= i < j < |RB_CODES| ==> RB_CODES[i] != RB_CODES[j]
    ensures EFAIL == EIVALID_REQUEST_PROTOCAL == 60001
    ensures EOK !in RB_CODES && EFAIL !in RB_CODES && EIVALID_RESPONSE_PROTOCAL !in RB_CODES
  {
  }

  const UNDEFINED_MESSAGE: string := "Undefined Error Number and Relating Readable Information"

  /** g_error_num_str: the messages of EOFFSET(0) to EOFFSET(14), then the
      catch-all entry. */
  const MESSAGES: seq<string> := [
    "OK",
    "Invalid Request Protocal",
    "Invalid Response Protocal",
    "Get pull mysql unix socket error",
    "Get rebuild node directory parameter error",
    "Get rebuild node mysql unix socket error",
    "Xtracback data from pull host error",
    "Checksum data from pull host error",
    "Backup rebuild node data error",
    "Cleanup rebuild node data error",
    "Xtracback recover data error",
    "Restart recover mysql error",
    "Connect recover mysql by unix socket error",
    "Execute change master sql error",
    "Get xtrabackup gtid position error",
    UNDEFINED_MESSAGE]

  /** ERROR_STR_DEFINED_NUM */
  const DEFINED_NUM: nat := |MESSAGES|

  /** GlobalErrorNum: one error number. */
  datatype GlobalErrorNum = GlobalErrorNum(errNum: int32)

  /** The default constructor holds EOK. */
  function DefaultErrorNum(): (g: GlobalErrorNum)
    ensures Ok(g)
  {
    GlobalErrorNum(EOK)
  }

  predicate Ok(g: GlobalErrorNum) {
    g.errNum == EOK
  }

  /** EintToStr: the decimal text of the number, which atoi reads back. */
  function EintToStr(n: int32): (s: string)
    ensures Atoi(s) == n
    ensures |s| > 0 && (n < 0 <==> s[0] == '-')
  {
    var s := IntToString(n);
    assert s + "" == s;
    AtoiOfIntToString(n, "");
    s
  }

  /** The conversion of a (signed, non-negative or negative) integer to
      size_t in a comparison with an unsigned size: reduction mod 2^64. */
  function SizeT(x: int): (r: nat)
    ensures r < TWO_64
    ensures 0 <= x < TWO_64 ==> r == x
    ensures x < 0 <= x + TWO_64 ==> r == x + TWO_64
  {
    x % 0x1_0000_0000_0000_0000
  }

  /** get_err_num_str as written: the message read, or None when the index
      falls outside the table. The difference err + 1 - EERROR_NUM_START is
      compared as a size_t, so every number below EERROR_NUM_START - 1
      wraps to a huge value and takes the catch-all branch; only
      EERROR_NUM_START - 1 itself gives 0, passes the bound and reads the
      entry before the table. */
  function ErrNumStrAsWritten(g: GlobalErrorNum): (r: Option<string>)
    ensures r.None? <==> g.errNum == EERROR_NUM_START - 1
  {
    var e := g.errNum as int;
    if e == 0 then Some(MESSAGES[0])
    else if SizeT(e + 1 - EERROR_NUM_START) > DEFINED_NUM then Some(MESSAGES[DEFINED_NUM - 1])
    else
      var i := e - EERROR_NUM_START;
      if 0 <= i < |MESSAGES| then Some(MESSAGES[i]) else None
  }

  /** get_err_num_str with the bound checked on the signed difference: every
      number gets an entry of the table. */
  function ErrNumStr(g: GlobalErrorNum): (r: string)
    ensures r in MESSAGES
    ensures g.errNum == EOK ==> r == "OK"
    ensures EERROR_NUM_START <= g.errNum < EERROR_NUM_START + DEFINED_NUM ==>
              r == MESSAGES[g.errNum - EERROR_NUM_START]
    ensures g.errNum != EOK && !(EERROR_NUM_START <= g.errNum < EERROR_NUM_START + DEFINED_NUM) ==>
              r == UNDEFINED_MESSAGE
  {
    var e := g.errNum as int;
    if e == 0 then MESSAGES[0]
    else if e - EERROR_NUM_START < 0 || e - EERROR_NUM_START >= DEFINED_NUM then MESSAGES[DEFINED_NUM - 1]
    else MESSAGES[e - EERROR_NUM_START]
  }

  /** The corrected lookup agrees with the code as written wherever the
      latter stays inside the table. */
  lemma ErrNumStrAgrees(g: GlobalErrorNum)
    requires g.errNum != EERROR_NUM_START - 1
    ensures ErrNumStrAsWritten(g) == Some(ErrNumStr(g))
  {
    var e := g.errNum as int;
    if e != 0 && e < EERROR_NUM_START - 1 {
      assert SizeT(e + 1 - EERROR_NUM_START) == e + 1 - EERROR_NUM_START + TWO_64;
    }
  }

  /** The number just below the first code reads outside the table. */
  lemma BelowFirstCodeReadsOutside()
    ensures ErrNumStrAsWritten(GlobalErrorNum(59999)).None?
    ensures ErrNumStr(GlobalErrorNum(59999)) == UNDEFINED_MESSAGE
  {
  }

  /** Each code EOFFSET(0)..EOFFSET(14) has its own message; the last two
      rebuild codes, EOFFSET(15) and EOFFSET(16), get the catch-all one. */
  lemma CodeMessages()
    ensures forall k :: 0 <= k < DEFINED_NUM - 1 ==> ErrNumStr(GlobalErrorNum(EOffset(k))) == MESSAGES[k]
    ensures ErrNumStr(GlobalErrorNum(RB_GET_PULLHOST_PARAM_FROM_METADB_ERROR)) == UNDEFINED_MESSAGE
    ensures ErrNumStr(GlobalErrorNum(RB_GET_RBHOST_PARAM_FROM_METADB_ERROR)) == UNDEFINED_MESSAGE
  {
  }
}
