/** safe_killmysql: find the mysqld processes of one instance by walking
    /proc two levels deep (CFile_traverse driven by GetKillMysqlPid), and
    kill them with one "kill -9" command. The file system is an input: a
    tree of directory entries as readdir and stat report them, and the
    text of every file that opens. */
module SafeKill {
  import opened Wrappers
  import opened CStr
  import PathSpace

  // ---------------------------------------------------------------------------
  // trim

  const BLANKS: set<char> := {' ', '\t', '\n', '\r'}

  /** find_first_not_of with a character set. */
  function FirstNotIn(s: string, cs: set<char>): (r: Option<nat>)
    ensures r.Some? ==> r.value < |s| && s[r.value] !in cs && forall i :: 0 <= i < r.value ==> s[i] in cs
    ensures r.None? ==> forall i :: 0 <= i < |s| ==> s[i] in cs
    decreases |s|
  {
    if s == "" then None
    else if s[0] !in cs then Some(0)
    else match FirstNotIn(s[1..], cs)
      case None => None
      case Some(k) => Some(k + 1)
  }

  /** find_last_not_of with a character set. */
  function LastNotIn(s: string, cs: set<char>): (r: Option<nat>)
    ensures r.Some? ==> r.value < |s| && s[r.value] !in cs && forall i :: r.value < i < |s| ==> s[i] in cs
    ensures r.None? ==> forall i :: 0 <= i < |s| ==> s[i] in cs
    decreases |s|
  {
    if s == "" then None
    else if s[|s| - 1] !in cs then Some(|s| - 1)
    else LastNotIn(s[..|s| - 1], cs)
  }

  /** trim(from): "" when every character is blank, otherwise the stretch
      from the first to the last non-blank character. */
  function KillTrim(from: string): (r: string)
  {
    match FirstNotIn(from, BLANKS)
    case None => ""
    case Some(s) =>
      var e := LastNotIn(from, BLANKS);
      assert e.Some? && s <= e.value;
      from[s..e.value + 1]
  }

  /** trim agrees with trimming by a character set: the longest middle part
      that neither starts nor ends with a blank. */
  lemma KillTrimIsTrim(from: string)
    ensures KillTrim(from) == Trim(from, BLANKS)
  {
    match FirstNotIn(from, BLANKS)
    case None =>
      assert Trim(from, BLANKS) == "";
    case Some(s) =>
      var e := LastNotIn(from, BLANKS).value;
      assert KillTrim(from) == from[s..e + 1];
      PathSpace.TrimBetween(from, BLANKS, s, e);
  }

  // ---------------------------------------------------------------------------
  // GetFileContent

  /** The pieces of `text` that each `sep` ends, plus a last piece without
      one when it is not empty. */
  function Pieces(text: string, sep: char): (r: seq<string>)
    ensures forall k :: 0 <= k < |r| ==> sep !in r[k]
    decreases |text|
  {
    if text == "" then []
    else match FindChar(text, sep)
      case None => [text]
      case Some(i) => [text[..i]] + Pieces(text[i + 1..], sep)
  }

  /** The lines std::getline extracts: up to each '\n', plus a last line
      without one when it is not empty. */
  function GetLines(text: string): (r: seq<string>)
    ensures forall k :: 0 <= k < |r| ==> '\n' !in r[k]
  {
    Pieces(text, '\n')
  }

  /** The text without its line breaks. */
  function DropNewlines(text: string): (r: string)
    ensures '\n' !in r
    decreases |text|
  {
    if text == "" then ""
    else (if text[0] == '\n' then "" else [text[0]]) + DropNewlines(text[1..])
  }

  /** GetFileContent(path): the lines of the file glued together; trim's
      result is discarded, so nothing but the line breaks is removed. A file
      that does not open reads as "". */
  function FileContent(files: map<string, string>, path: string): (r: string)
    ensures path !in files ==> r == ""
  {
    if path in files then Concat(GetLines(files[path])) else ""
  }

  /** Gluing the lines back together is dropping the line breaks. */
  lemma {:induction false} ContentDropsNewlines(text: string)
    ensures Concat(GetLines(text)) == DropNewlines(text)
    decreases |text|
  {
    if text != "" {
      match FindChar(text, '\n')
      case None =>
        NoNewlines(text);
        assert Concat([text]) == text + Concat([]);
      case Some(i) =>
        var head, tail := text[..i], text[i + 1..];
        assert GetLines(text) == [head] + GetLines(tail);
        assert Concat(GetLines(text)) == head + Concat(GetLines(tail)) by {
          assert ([head] + GetLines(tail))[1..] == GetLines(tail);
        }
        assert Concat(GetLines(tail)) == DropNewlines(tail) by {
          ContentDropsNewlines(tail);
        }
        var nl := ['\n'] + tail;
        assert text == head + nl by {
          PathSpace.SplitAround(text, i);
        }
        assert DropNewlines(head) == head by {
          NoNewlines(head);
        }
        assert DropNewlines(nl) == DropNewlines(tail) by {
          assert nl[1..] == tail;
        }
        DropNewlinesAppend(head, nl);
    }
  }

  lemma {:induction false} NoNewlines(t: string)
    requires '\n' !in t
    ensures DropNewlines(t) == t
    decreases |t|
  {
    if t != "" {
      assert '\n' !in t[1..];
      NoNewlines(t[1..]);
    }
  }

  lemma {:induction false} DropNewlinesAppend(a: string, b: string)
    ensures DropNewlines(a + b) == DropNewlines(a) + DropNewlines(b)
    decreases |a|
  {
    if a == "" {
      assert a + b == b;
    } else {
      assert (a + b)[1..] == a[1..] + b;
      DropNewlinesAppend(a[1..], b);
    }
  }

  // ---------------------------------------------------------------------------
  // TokenizeCmdLine

  /** The bytes c_str() exposes: the text and its terminating NUL. */
  function Terminated(src: string): string { src + ['\0'] }

  /** The loop of TokenizeCmdLine from position `i` with the current token
      starting at `b`: at a NUL a non-empty token is pushed and the next
      token starts after the NUL, and `i = i+1` plus the loop's own `i++`
      step over the byte after every NUL. Gives the final `i`, `b` and the
      tokens pushed in the loop. */
  function CmdScan(src: string, i: nat, b: nat): (r: (nat, nat, seq<string>))
    requires b <= i <= |src| + 1
    ensures r.1 <= r.0 <= |src| + 1
    ensures forall k :: 0 <= k < |r.2| ==> '\0' !in r.2[k]
    ensures i >= |src| ==> r == (i, b, [])
    decreases |src| + 2 - i
  {
    if i >= |src| then (i, b, [])
    else if src[i] == '\0' then
      var nb := if i > b then i + 1 else b;
      var pushed := if i > b then [CString(src[b..i])] else [];
      var r := CmdScan(src, i + 2, nb);
      (r.0, r.1, pushed + r.2)
    else CmdScan(src, i + 1, b)
  }

  /** TokenizeCmdLine(src, len) as written: after the loop the rest from `b`
      is pushed when the loop ended past it, read through the terminating
      NUL. Every token is taken as a C string. */
  function TokenizeCmdLineAsWritten(src: string): (r: seq<string>)
    ensures forall k :: 0 <= k < |r| ==> '\0' !in r[k]
  {
    var s := CmdScan(src, 0, 0);
    s.2 + (if s.0 > s.1 then [CString(Terminated(src)[s.1..s.0])] else [])
  }

  /** The corrected tokenizer: the NUL-terminated arguments of a
      /proc/<pid>/cmdline, every NUL ending one (empty ones included) and a
      last argument without its NUL kept when non-empty. */
  function CmdArgs(src: string): (r: seq<string>)
    ensures forall k :: 0 <= k < |r| ==> '\0' !in r[k]
  {
    Pieces(src, '\0')
  }

  /** The bytes of an argument vector as /proc shows it: each argument
      followed by a NUL. */
  function CmdLine(args: seq<string>): string
    decreases |args|
  {
    if args == [] then "" else args[0] + ['\0'] + CmdLine(args[1..])
  }

  /** The corrected tokenizer gives back every argument, empty ones too. */
  lemma {:induction false} CmdArgsOfCmdLine(args: seq<string>)
    requires forall k :: 0 <= k < |args| ==> '\0' !in args[k]
    ensures CmdArgs(CmdLine(args)) == args
    decreases |args|
  {
    if args != [] {
      var a := args[0];
      var rest := CmdLine(args[1..]);
      var src := a + ['\0'] + rest;
      assert src[|a|] == '\0';
      assert src[..|a|] == a;
      assert src[|a| + 1..] == rest;
      assert FindChar(src, '\0') == Some(|a|);
      CmdArgsOfCmdLine(args[1..]);
    }
  }

  /** Text without NUL is one token when not empty, for both tokenizers. */
  lemma NoNulOneToken(src: string)
    requires '\0' !in src
    ensures TokenizeCmdLineAsWritten(src) == (if src == "" then [] else [src])
    ensures CmdArgs(src) == (if src == "" then [] else [src])
  {
    ScanNoNul(src, 0, 0);
    if src != "" {
      assert Terminated(src)[0..|src|] == src;
      NoNulCString(src);
    }
  }

  lemma {:induction false} ScanNoNul(src: string, i: nat, b: nat)
    requires b <= i <= |src| + 1 && '\0' !in src
    ensures CmdScan(src, i, b) == (if i >= |src| then i else |src|, b, [])
    decreases |src| + 2 - i
  {
    if i < |src| {
      assert src[i] != '\0';
      ScanNoNul(src, i + 1, b);
    }
  }

  /** Inside a token the scan only moves forward. */
  lemma {:induction false} ScanThrough(src: string, i: nat, b: nat, e: nat)
    requires b <= i <= e <= |src|
    requires forall k :: i <= k < e ==> src[k] != '\0'
    ensures CmdScan(src, i, b) == CmdScan(src, e, b)
    decreases e - i
  {
    if i < e {
      ScanThrough(src, i + 1, b, e);
    }
  }

  /** At a NUL ending a non-empty token the scan pushes it and goes on two
      bytes further, with the next token starting after the NUL. */
  lemma ScanAtNul(src: string, i: nat, b: nat)
    requires b < i < |src| && src[i] == '\0'
    ensures var r := CmdScan(src, i + 2, i + 1);
      CmdScan(src, i, b) == (r.0, r.1, [CString(src[b..i])] + r.2)
  {
  }

  /** The scan over "p a0 NUL a1 NUL …" from the second byte of a0 (its first
      byte was stepped over or is where the scan starts) pushes every
      argument, when no argument is empty. */
  lemma {:induction false} ScanArgs(src: string, s: nat, args: seq<string>, i: nat)
    requires args != []
    requires forall k :: 0 <= k < |args| ==> |args[k]| > 0 && '\0' !in args[k]
    requires s <= i <= s + 1 && s <= |src| && src[s..] == CmdLine(args)
    ensures CmdScan(src, i, s) == (|src| + 1, |src|, args)
    decreases |args|
  {
    var e := s + |args[0]|;
    var rest := args[1..];
    CmdLineHead(src, s, args);
    var r := CmdScan(src, e + 2, e + 1);
    assert CmdScan(src, i, s) == (r.0, r.1, [args[0]] + r.2) by {
      ScanToken(src, s, args[0], i);
    }
    assert r == (|src| + 1, |src|, rest) by {
      if rest != [] {
        assert forall k :: 0 <= k < |rest| ==> rest[k] == args[k + 1];
        ScanArgs(src, e + 1, rest, e + 2);
      }
    }
    assert [args[0]] + rest == args;
  }

  /** Where the first argument of a cmdline lying at `s` is. */
  lemma CmdLineHead(src: string, s: nat, args: seq<string>)
    requires args != [] && s <= |src| && src[s..] == CmdLine(args)
    ensures var e := s + |args[0]|;
      e < |src| && src[s..e] == args[0] && src[e] == '\0' && src[e + 1..] == CmdLine(args[1..])
  {
    var a := args[0];
    var rest := CmdLine(args[1..]);
    assert CmdLine(args) == a + ['\0'] + rest;
    var e := s + |a|;
    assert src[s..e] == src[s..][..|a|];
    assert src[e + 1..] == src[s..][|a| + 1..];
  }

  /** The scan pushes a non-empty token `a` lying at `s` and ended by a NUL. */
  lemma ScanToken(src: string, s: nat, a: string, i: nat)
    requires |a| > 0 && '\0' !in a && s + |a| < |src|
    requires src[s..s + |a|] == a && src[s + |a|] == '\0'
    requires s <= i <= s + 1
    ensures var e := s + |a|; var r := CmdScan(src, e + 2, e + 1);
      CmdScan(src, i, s) == (r.0, r.1, [a] + r.2)
  {
    var e := s + |a|;
    var r := CmdScan(src, e + 2, e + 1);
    assert CmdScan(src, i, s) == CmdScan(src, e, s) by {
      forall k | s <= k < e ensures src[k] != '\0' {
        assert src[k] == a[k - s];
      }
      ScanThrough(src, i, s, e);
    }
    assert CmdScan(src, e, s) == (r.0, r.1, [CString(src[s..e])] + r.2) by {
      ScanAtNul(src, e, s);
    }
    NoNulCString(a);
  }

  /** On a well-formed cmdline with no empty argument the code as written
      finds every argument, followed by one "" read from the terminating NUL. */
  lemma CmdLineAsWritten(args: seq<string>)
    requires args != []
    requires forall k :: 0 <= k < |args| ==> |args[k]| > 0 && '\0' !in args[k]
    ensures TokenizeCmdLineAsWritten(CmdLine(args)) == args + [""]
  {
    var src := CmdLine(args);
    assert src[0..] == src;
    ScanArgs(src, 0, args, 0);
    assert Terminated(src)[|src|..|src| + 1] == ['\0'];
  }

  /** An empty argument hides the next one from the code as written: the
      byte after the empty argument's NUL is stepped over, and the next token
      is read from that NUL, as "". The corrected tokenizer keeps it. */
  lemma EmptyArgumentHidesNext(a: string, c: string)
    requires |a| > 0 && |c| > 0 && '\0' !in a && '\0' !in c
    ensures TokenizeCmdLineAsWritten(CmdLine([a, "", c])) == [a, "", ""]
    ensures CmdArgs(CmdLine([a, "", c])) == [a, "", c]
  {
    var src := CmdLine([a, "", c]);
    var n := |a|;
    var m := n + 2 + |c|;
    assert src == a + ['\0'] + (['\0'] + (c + ['\0'])) && |src| == m + 1 by {
      assert [a, "", c][1..] == ["", c] && ["", c][1..] == [c] && [c][1..] == [];
      assert CmdLine([c]) == c + ['\0'] + CmdLine([]);
      assert CmdLine(["", c]) == "" + ['\0'] + CmdLine([c]);
      assert src == a + ['\0'] + CmdLine(["", c]);
    }
    var r := CmdScan(src, n + 2, n + 1);
    assert CmdScan(src, 0, 0) == (r.0, r.1, [a] + r.2) by {
      assert src[..n] == a && src[n] == '\0';
      ScanThrough(src, 0, 0, n);
      ScanAtNul(src, n, 0);
      NoNulCString(a);
    }
    assert r == (|src| + 1, |src|, [""]) by {
      assert src[n + 1..m] == ['\0'] + c && src[m] == '\0';
      forall k | n + 2 <= k < m ensures src[k] != '\0' {
        assert src[k] == c[k - n - 2];
      }
      ScanThrough(src, n + 2, n + 1, m);
      ScanAtNul(src, m, n + 1);
      assert CString(src[n + 1..m]) == "";
      assert CmdScan(src, m + 2, m + 1) == (|src| + 1, |src|, []);
      assert [""] + [] == [""];
    }
    var s := CmdScan(src, 0, 0);
    assert s == (|src| + 1, |src|, [a, ""]) by {
      assert [a] + [""] == [a, ""];
    }
    assert CString(Terminated(src)[s.1..s.0]) == "" by {
      assert Terminated(src)[|src|..|src| + 1] == ['\0'];
    }
    assert [a, ""] + [""] == [a, "", ""];
    CmdArgsOfCmdLine([a, "", c]);
  }

  // ---------------------------------------------------------------------------
  // GetKillMysqlPid

  /** The file types dev_to_filetype reports (CUNKNOWN also when stat fails). */
  datatype FileType = CBLK | CCHR | CDIR | CFIFO | CLNK | CREG | CSOCK | CUNKNOWN

  /** A directory entry as readdir and stat see it: its name, its type,
      whether it opens as a directory, and the entries readdir lists in it
      ("." and ".." left out). */
  datatype Entry = Entry(name: string, kind: FileType, opens: bool, children: seq<Entry>)

  /** Which code the walk runs: as written, or with the two corrections
      (the level restored when a directory does not open, and cmdline split
      at every NUL). */
  datatype Build = AsWritten | Corrected

  /** The instance to kill: the port and data directory arguments. */
  datatype Target = Target(port: string, datadir: string)

  const COMM: string := "comm"
  const CMDLINE: string := "/cmdline"
  const TASK: string := "task"
  const MYSQLD: string := "mysqld"
  const MYSQLD_SAFE: string := "mysqld_safe"
  const DEFAULTS: string := "--defaults-file="
  const DATA: string := "/data/"
  const CNF: string := ".cnf"

  /** The option that names the instance's configuration file. */
  function MatchTag(t: Target): string {
    DEFAULTS + t.datadir + "/" + t.port + DATA + t.port + CNF
  }

  /** The last path component: substr(rfind("/") + 1). */
  function LastPart(path: string): string { SplitAtLast(path, '/').1 }

  /** The path without its last component: substr(0, rfind("/")). */
  function Parent(path: string): string { SplitAtLast(path, '/').0 }

  function Tokens(cont: string, b: Build): seq<string> {
    if b.AsWritten? then TokenizeCmdLineAsWritten(cont) else CmdArgs(cont)
  }

  /** execute(path, f_type): for a regular file named "comm" whose content
      is "mysqld" or "mysqld_safe", the process directory's name is the pid
      to kill when a cmdline token is the instance's --defaults-file option.
      An empty comm (also one that does not open) makes it fail. */
  function Execute(path: string, kind: FileType, files: map<string, string>, t: Target, b: Build): (r: (int, Option<string>))
  {
    if kind != CREG || LastPart(path) != COMM then (0, None)
    else
      var tags := FileContent(files, path);
      if tags == "" then (1, None)
      else if tags !in {MYSQLD, MYSQLD_SAFE} then (0, None)
      else
        var sub := Parent(path);
        var cont := FileContent(files, sub + CMDLINE);
        if MatchTag(t) in Tokens(cont, b) then (0, Some(LastPart(sub))) else (0, None)
  }

  /** What execute decides: it fails exactly on an empty comm, and it
      records the process directory's name exactly for a comm of mysqld or
      mysqld_safe whose cmdline holds the instance's option. */
  lemma ExecuteSpec(path: string, kind: FileType, files: map<string, string>, t: Target, b: Build)
    ensures var r := Execute(path, kind, files, t, b);
      (r.0 == 1 <==> kind == CREG && LastPart(path) == COMM && FileContent(files, path) == "") &&
      (r.0 != 1 ==> r.0 == 0) &&
      (r.1.Some? <==> (kind == CREG && LastPart(path) == COMM &&
        FileContent(files, path) in {MYSQLD, MYSQLD_SAFE} &&
        MatchTag(t) in Tokens(FileContent(files, Parent(path) + CMDLINE), b))) &&
      (r.1.Some? ==> r.1.value == LastPart(Parent(path)))
  {
  }

  /** The filter CFile_traverse calls on every entry: its return value and
      the pid it records, if any. */
  type Filter = (string, FileType) -> (int, Option<string>)

  /** The filter safe_killmysql hands to the traversal. */
  function KillFilter(files: map<string, string>, t: Target, b: Build): Filter {
    (path, kind) => Execute(path, kind, files, t, b)
  }

  /** The filter ignores directories, as the walk lemmas assume. */
  lemma KillFilterIgnoresDirectories(files: map<string, string>, t: Target, b: Build)
    ensures forall path :: KillFilter(files, t, b)(path, CDIR) == (0, None)
  {
  }

  /** skip_directory: a directory whose name is "task" is not entered. */
  function SkipDirectory(path: string): bool { LastPart(path) == TASK }

  const SCAN_LEVEL: int := 2

  /** The traversal's state: m_cur_level, m_cur_fpos and the pids found. */
  datatype Walker = Walker(level: int, fpos: string, pids: seq<string>)

  function OptSeq(p: Option<string>): seq<string> {
    if p.Some? then [p.value] else []
  }

  /** parse_inn(path) on the directory entry `d`; the flag is a failure
      (return 1). At the scan level nothing happens; a directory that does
      not open is left, as written, with the level still raised. */
  function ParseInn(d: Entry, path: string, w: Walker, exec: Filter, b: Build): (r: (Walker, bool))
    decreases d, |d.children| + 1
  {
    if w.level >= SCAN_LEVEL then (w, false)
    else
      var fpos := w.fpos + path;
      if !d.opens then
        (Walker(if b.Corrected? then w.level else w.level + 1, Parent(fpos), w.pids), false)
      else
        var r := Entries(d, 0, Walker(w.level + 1, fpos, w.pids), exec, b);
        if r.1 then r
        else (Walker(if r.0.level > 0 then r.0.level - 1 else r.0.level, Parent(r.0.fpos), r.0.pids), false)
  }

  /** The readdir loop of parse_inn from the `i`-th entry: execute on each
      entry, then parse_inn on each directory skip_directory lets through. */
  function Entries(d: Entry, i: nat, w: Walker, exec: Filter, b: Build): (r: (Walker, bool))
    requires i <= |d.children|
    decreases d, |d.children| - i
  {
    if i == |d.children| then (w, false)
    else
      var c := d.children[i];
      var path := w.fpos + "/" + c.name;
      var x := exec(path, c.kind);
      var w1 := w.(pids := w.pids + OptSeq(x.1));
      if x.0 != 0 then (w1, true)
      else if c.kind == CDIR && !SkipDirectory(path) then
        var r := ParseInn(c, "/" + c.name, w1, exec, b);
        if r.1 then r else Entries(d, i + 1, r.0, exec, b)
      else Entries(d, i + 1, w1, exec, b)
  }

  // ---------------------------------------------------------------------------
  // The walk, described level by level

  /** What execute finds in the entries of one process directory `dir`,
      from the `i`-th on: the pids and whether an empty comm stopped it. */
  function Files(c: Entry, i: nat, dir: string, exec: Filter): (r: (seq<string>, bool))
    requires i <= |c.children|
    decreases |c.children| - i
  {
    if i == |c.children| then ([], false)
    else
      var x := exec(dir + "/" + c.children[i].name, c.children[i].kind);
      if x.0 != 0 then (OptSeq(x.1), true)
      else
        var rest := Files(c, i + 1, dir, exec);
        (OptSeq(x.1) + rest.0, rest.1)
  }

  /** What the walk finds under /proc (at `dir`) from its `i`-th entry: each
      entry is executed, and each directory other than "task" that opens
      has its own entries executed; nothing deeper is looked at. */
  function Procs(root: Entry, i: nat, dir: string, exec: Filter): (r: (seq<string>, bool))
    requires i <= |root.children|
    decreases |root.children| - i
  {
    if i == |root.children| then ([], false)
    else
      var c := root.children[i];
      var path := dir + "/" + c.name;
      var x := exec(path, c.kind);
      if x.0 != 0 then (OptSeq(x.1), true)
      else
        var inner := if c.kind == CDIR && c.name != TASK && c.opens then Files(c, 0, path, exec) else ([], false);
        if inner.1 then (OptSeq(x.1) + inner.0, true)
        else
          var rest := Procs(root, i + 1, dir, exec);
          (OptSeq(x.1) + inner.0 + rest.0, rest.1)
  }

  /** At the scan level the loop only executes: sub-directories are not entered. */
  lemma {:induction false} EntriesAtScanLevel(c: Entry, i: nat, w: Walker, exec: Filter, b: Build)
    requires i <= |c.children| && w.level >= SCAN_LEVEL
    ensures var r := Entries(c, i, w, exec, b);
      var f := Files(c, i, w.fpos, exec);
      r.0 == w.(pids := w.pids + f.0) && r.1 == f.1
    decreases |c.children| - i
  {
    if i < |c.children| {
      var ch := c.children[i];
      var x := exec(w.fpos + "/" + ch.name, ch.kind);
      var w1 := w.(pids := w.pids + OptSeq(x.1));
      if x.0 == 0 {
        assert ParseInn(ch, "/" + ch.name, w1, exec, b) == (w1, false);
        assert Entries(c, i, w, exec, b) == Entries(c, i + 1, w1, exec, b);
        EntriesAtScanLevel(c, i + 1, w1, exec, b);
        var f := Files(c, i + 1, w.fpos, exec);
        assert Files(c, i, w.fpos, exec) == (OptSeq(x.1) + f.0, f.1);
        Assoc(w.pids, OptSeq(x.1), f.0);
      } else {
        assert Entries(c, i, w, exec, b) == (w1, true);
      }
    } else {
      assert w.pids + [] == w.pids;
    }
  }

  lemma Assoc<T>(a: seq<T>, b: seq<T>, c: seq<T>)
    ensures a + b + c == a + (b + c)
  {
  }

  /** A process directory entered from level 1 by the corrected walk: its
      entries are executed and, unless an empty comm stops the walk, the
      level and the position come back to where they were. */
  lemma ProcessDir(c: Entry, w: Walker, exec: Filter)
    requires w.level == 1 && '/' !in c.name
    ensures var r := ParseInn(c, "/" + c.name, w, exec, Corrected);
      var f := if c.opens then Files(c, 0, w.fpos + "/" + c.name, exec) else ([], false);
      r.0.pids == w.pids + f.0 && r.1 == f.1 &&
      (!r.1 ==> r.0.level == 1 && r.0.fpos == w.fpos)
  {
    SplitAtLastOfJoin(w.fpos, '/', c.name);
    assert w.fpos + ("/" + c.name) == w.fpos + "/" + c.name;
    if c.opens {
      EntriesAtScanLevel(c, 0, Walker(2, w.fpos + "/" + c.name, w.pids), exec, Corrected);
    } else {
      assert w.pids + [] == w.pids;
    }
  }

  /** The corrected loop over /proc's entries at level 1 is the level-by-
      level description, and leaves the level and the position as they were. */
  lemma {:induction false} EntriesOfProc(root: Entry, i: nat, w: Walker, exec: Filter)
    requires i <= |root.children| && w.level == 1
    requires forall k :: 0 <= k < |root.children| ==> '/' !in root.children[k].name
    ensures var r := Entries(root, i, w, exec, Corrected);
      var p := Procs(root, i, w.fpos, exec);
      r.0.pids == w.pids + p.0 && r.1 == p.1 && (!r.1 ==> r.0.level == 1 && r.0.fpos == w.fpos)
    decreases |root.children| - i
  {
    if i == |root.children| {
      assert w.pids + [] == w.pids;
    } else {
      var c := root.children[i];
      var path := w.fpos + "/" + c.name;
      var x := exec(path, c.kind);
      var w1 := w.(pids := w.pids + OptSeq(x.1));
      if x.0 != 0 {
        assert Entries(root, i, w, exec, Corrected) == (w1, true);
        assert Procs(root, i, w.fpos, exec) == (OptSeq(x.1), true);
      } else {
        SplitAtLastOfJoin(w.fpos, '/', c.name);
        assert SkipDirectory(path) <==> c.name == TASK;
        var rest := Procs(root, i + 1, w.fpos, exec);
        if c.kind == CDIR && c.name != TASK {
          ProcessDir(c, w1, exec);
          var r := ParseInn(c, "/" + c.name, w1, exec, Corrected);
          var f := if c.opens then Files(c, 0, path, exec) else ([], false);
          if !r.1 {
            assert Entries(root, i, w, exec, Corrected) == Entries(root, i + 1, r.0, exec, Corrected);
            assert Procs(root, i, w.fpos, exec) == (OptSeq(x.1) + f.0 + rest.0, rest.1);
            EntriesOfProc(root, i + 1, r.0, exec);
            Assoc(w.pids, OptSeq(x.1), f.0);
            Assoc(w.pids, OptSeq(x.1) + f.0, rest.0);
          } else {
            assert Entries(root, i, w, exec, Corrected) == r;
            assert Procs(root, i, w.fpos, exec) == (OptSeq(x.1) + f.0, true);
            Assoc(w.pids, OptSeq(x.1), f.0);
          }
        } else {
          assert Entries(root, i, w, exec, Corrected) == Entries(root, i + 1, w1, exec, Corrected);
          assert Procs(root, i, w.fpos, exec) == (OptSeq(x.1) + [] + rest.0, rest.1);
          EntriesOfProc(root, i + 1, w1, exec);
          assert OptSeq(x.1) + [] == OptSeq(x.1);
          Assoc(w.pids, OptSeq(x.1), rest.0);
        }
      }
    }
  }

  const PROC: string := "/proc"

  /** file_trav.parse() on /proc: the pids found and whether it failed. */
  function Scan(root: Entry, exec: Filter, b: Build): (r: (seq<string>, bool))
  {
    var r := ParseInn(root, PROC, Walker(0, "", []), exec, b);
    (r.0.pids, r.1)
  }

  /** The corrected walk finds exactly what the level-by-level description
      finds: the entries of /proc and of each of its directories except
      "task", and nothing deeper. */
  lemma CorrectedScanIsProcs(root: Entry, exec: Filter)
    requires forall k :: 0 <= k < |root.children| ==> '/' !in root.children[k].name
    ensures var p := if root.opens then Procs(root, 0, PROC, exec) else ([], false);
      Scan(root, exec, Corrected) == p
  {
    assert "" + PROC == PROC;
    if root.opens {
      EntriesOfProc(root, 0, Walker(1, PROC, []), exec);
      var p := Procs(root, 0, PROC, exec);
      assert [] + p.0 == p.0;
    }
  }

  /** A /proc directory that cannot be opened (its process has just exited)
      leaves the level raised in the code as written, so a matching process
      listed after it is never entered; the corrected walk finds it. */
  lemma GoneProcessHidesLaterOnes(gone: Entry, p: Entry, exec: Filter)
    requires forall path :: exec(path, CDIR) == (0, None)
    requires gone.kind == CDIR && !gone.opens && gone.name != TASK && '/' !in gone.name
    requires p.kind == CDIR && p.opens && p.name != TASK && '/' !in p.name
    ensures Scan(Entry(PROC, CDIR, true, [gone, p]), exec, AsWritten) == ([], false)
    ensures Scan(Entry(PROC, CDIR, true, [gone, p]), exec, Corrected) ==
      Files(p, 0, PROC + "/" + p.name, exec)
  {
    AsWrittenScanOfPair(gone, p, exec);
    CorrectedScanOfPair(gone, p, exec);
  }

  /** A /proc that opens is scanned by walking its entries one level down. */
  lemma ScanOfEntries(root: Entry, exec: Filter, b: Build)
    requires root.opens
    ensures var r := Entries(root, 0, Walker(1, PROC, []), exec, b);
      Scan(root, exec, b) == (r.0.pids, r.1)
  {
    assert "" + PROC == PROC;
  }

  lemma AsWrittenScanOfPair(gone: Entry, p: Entry, exec: Filter)
    requires exec(PROC + "/" + gone.name, CDIR) == (0, None) && exec(PROC + "/" + p.name, CDIR) == (0, None)
    requires gone.kind == CDIR && !gone.opens && gone.name != TASK && '/' !in gone.name
    requires p.kind == CDIR && p.opens && p.name != TASK && '/' !in p.name
    ensures Scan(Entry(PROC, CDIR, true, [gone, p]), exec, AsWritten) == ([], false)
  {
    var root := Entry(PROC, CDIR, true, [gone, p]);
    var none: seq<string> := [];
    var w1 := Walker(1, PROC, none);
    var w2 := Walker(2, PROC, none);
    assert Entries(root, 0, w1, exec, AsWritten) == Entries(root, 1, w2, exec, AsWritten) by {
      var gpath := PROC + "/" + gone.name;
      SplitAtLastOfJoin(PROC, '/', gone.name);
      assert root.children[0] == gone;
      assert exec(gpath, gone.kind) == (0, None);
      assert none + OptSeq(None) == none;
      assert !SkipDirectory(gpath);
      assert PROC + ("/" + gone.name) == gpath;
      assert ParseInn(gone, "/" + gone.name, w1, exec, AsWritten) == (w2, false);
    }
    assert Entries(root, 1, w2, exec, AsWritten) == (w2, false) by {
      var ppath := PROC + "/" + p.name;
      SplitAtLastOfJoin(PROC, '/', p.name);
      assert root.children[1] == p;
      assert exec(ppath, p.kind) == (0, None);
      assert none + OptSeq(None) == none;
      assert !SkipDirectory(ppath);
      assert ParseInn(p, "/" + p.name, w2, exec, AsWritten) == (w2, false);
      assert Entries(root, 2, w2, exec, AsWritten) == (w2, false);
    }
    ScanOfEntries(root, exec, AsWritten);
  }


  lemma CorrectedScanOfPair(gone: Entry, p: Entry, exec: Filter)
    requires forall path :: exec(path, CDIR) == (0, None)
    requires gone.kind == CDIR && !gone.opens && '/' !in gone.name
    requires p.kind == CDIR && p.opens && p.name != TASK && '/' !in p.name
    ensures Scan(Entry(PROC, CDIR, true, [gone, p]), exec, Corrected) ==
      Files(p, 0, PROC + "/" + p.name, exec)
  {
    var root := Entry(PROC, CDIR, true, [gone, p]);
    assert root.children[0] == gone && root.children[1] == p;
    CorrectedScanIsProcs(root, exec);
    ProcsOfPair(gone, p, exec);
  }

  /** The level-by-level description of a /proc holding an unopenable
      directory and then an openable one finds the entries of the latter. */
  lemma ProcsOfPair(gone: Entry, p: Entry, exec: Filter)
    requires forall path :: exec(path, CDIR) == (0, None)
    requires gone.kind == CDIR && !gone.opens && p.kind == CDIR && p.opens && p.name != TASK
    ensures Procs(Entry(PROC, CDIR, true, [gone, p]), 0, PROC, exec) == Files(p, 0, PROC + "/" + p.name, exec)
  {
    var root := Entry(PROC, CDIR, true, [gone, p]);
    var f := Files(p, 0, PROC + "/" + p.name, exec);
    var none: seq<string> := [];
    assert Procs(root, 2, PROC, exec) == ([], false);
    assert root.children[1] == p && root.children[0] == gone;
    assert exec(PROC + "/" + p.name, p.kind) == (0, None);
    assert exec(PROC + "/" + gone.name, gone.kind) == (0, None);
    assert OptSeq(None) == none;
    if f.1 {
      assert Procs(root, 1, PROC, exec) == (none + f.0, true);
      assert none + f.0 == f.0;
    } else {
      assert Procs(root, 1, PROC, exec) == (none + f.0 + none, false);
      assert none + f.0 + none == f.0;
    }
    assert Procs(root, 1, PROC, exec) == f;
    assert Procs(root, 0, PROC, exec) == (OptSeq(None) + none + f.0, f.1);
    assert OptSeq(None) + none + f.0 == f.0;
  }

  // ---------------------------------------------------------------------------
  // main

  const KILL: string := "kill -9 "

  /** The kill command: "kill -9 " and every pid followed by a space. */
  function KillCommand(pids: seq<string>): (r: string)
    ensures |r| >= |KILL| && r[..|KILL|] == KILL
    decreases |pids|
  {
    if pids == [] then KILL else KillCommand(pids[..|pids| - 1]) + pids[|pids| - 1] + " "
  }

  /** The command splits back into "kill", "-9" and the pids. */
  lemma KillCommandTokens(pids: seq<string>)
    requires forall k :: 0 <= k < |pids| ==> |pids[k]| > 0 && ' ' !in pids[k]
    ensures Tokenize(KillCommand(pids), {' '}) == ["kill", "-9"] + pids
  {
    KillCommandIsJoin(pids);
    var parts := ["kill", "-9"] + pids;
    assert forall k :: 0 <= k < |parts| ==> |parts[k]| > 0 && NoneOf(parts[k], {' '}) by {
      forall k | 0 <= k < |parts| ensures |parts[k]| > 0 && NoneOf(parts[k], {' '}) {
        if k >= 2 { assert parts[k] == pids[k - 2]; }
      }
    }
    TokenizeJoin(parts, ' ', {' '});
    assert Join(parts, " ") + " " == Join(parts, " ") + [' '];
    TrailingBlank(Join(parts, " "));
  }

  lemma TrailingBlank(s: string)
    ensures Tokenize(s + " ", {' '}) == Tokenize(s, {' '})
  {
    TokenizeFromSnocDelim(s, ' ', {' '}, "");
  }

  lemma {:induction false} TokenizeFromSnocDelim(s: string, c: char, delims: set<char>, cur: string)
    requires c in delims
    ensures TokenizeFrom(s + [c], delims, cur) == TokenizeFrom(s, delims, cur)
    decreases |s|
  {
    if s == "" {
      assert s + [c] == [c];
      assert [c][1..] == "";
    } else {
      assert (s + [c])[1..] == s[1..] + [c];
      if s[0] in delims {
        TokenizeFromSnocDelim(s[1..], c, delims, "");
      } else {
        TokenizeFromSnocDelim(s[1..], c, delims, cur + [s[0]]);
      }
    }
  }

  lemma {:induction false} KillCommandIsJoin(pids: seq<string>)
    ensures KillCommand(pids) == Join(["kill", "-9"] + pids, " ") + " "
    decreases |pids|
  {
    if pids == [] {
      assert ["kill", "-9"] + pids == ["kill", "-9"];
      assert Join(["kill", "-9"], " ") == "kill" + " " + "-9";
    } else {
      var init := pids[..|pids| - 1];
      KillCommandIsJoin(init);
      JoinSnoc(["kill", "-9"] + init, pids[|pids| - 1], " ");
      assert ["kill", "-9"] + init + [pids[|pids| - 1]] == ["kill", "-9"] + pids;
    }
  }

  lemma {:induction false} JoinSnoc(parts: seq<string>, x: string, sep: string)
    requires parts != []
    ensures Join(parts + [x], sep) == Join(parts, sep) + sep + x
    decreases |parts|
  {
    if |parts| == 1 {
      assert parts + [x] == [parts[0], x];
    } else {
      assert (parts + [x])[1..] == parts[1..] + [x];
      JoinSnoc(parts[1..], x, sep);
    }
  }

  /** main(argv): -1 unless there are exactly a port and a data directory;
      1 when the walk fails; 0 without killing when no pid is found;
      otherwise the kill command runs, and a failed launch or a non-zero
      child status gives 1. `launch` answers whether the command launched
      and the child's status. */
  function Main(argv: seq<string>, root: Entry, files: map<string, string>,
                launch: string -> (bool, int), b: Build): (r: (int, Option<string>))
    ensures |argv| != 3 ==> r == (-1, None)
    ensures r.1.Some? ==> |argv| == 3 && var s := Scan(root, KillFilter(files, Target(argv[1], argv[2]), b), b);
      !s.1 && s.0 != [] && r.1.value == KillCommand(s.0)
    ensures r.0 == 0 ==> |argv| == 3 && !Scan(root, KillFilter(files, Target(argv[1], argv[2]), b), b).1
    ensures r.0 != 0 && r.0 != -1 ==> r.0 == 1
  {
    if |argv| != 3 then (-1, None)
    else
      var s := Scan(root, KillFilter(files, Target(argv[1], argv[2]), b), b);
      if s.1 then (1, None)
      else if s.0 == [] then (0, None)
      else
        var cmd := KillCommand(s.0);
        var l := launch(cmd);
        if !l.0 || l.1 != 0 then (1, Some(cmd)) else (0, Some(cmd))
  }
}
