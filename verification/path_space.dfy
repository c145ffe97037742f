/** The disk-space side of Instance_info (instance_info.cc): trimming and
    splitting the ';'-separated path lists, reading the output of `du` and
    `df`, and the JSON answer set_path_space assembles. The commands are not
    run: their output is an input. */
module PathSpace {
  import opened Wrappers
  import opened Bytes
  import opened CStr
  import opened JsonTree

  // ---------------------------------------------------------------------------
  // trimString

  /** find_first_not_of(c): the first position holding another character. */
  function FirstNotOf(s: string, c: char): (r: Option<nat>)
    ensures r.Some? ==> r.value < |s| && s[r.value] != c
    decreases |s|
  {
    if s == "" then None
    else if s[0] != c then Some(0)
    else match FirstNotOf(s[1..], c)
      case None => None
      case Some(k) => Some(k + 1)
  }

  /** find_last_not_of(c): the last position holding another character. */
  function LastNotOf(s: string, c: char): (r: Option<nat>)
    ensures r.Some? ==> r.value < |s| && s[r.value] != c
    decreases |s|
  {
    if s == "" then None
    else if s[|s| - 1] != c then Some(|s| - 1)
    else LastNotOf(s[..|s| - 1], c)
  }

  /** Everything before the position find_first_not_of returns is `c`, and
      it returns npos exactly when every character is `c`. */
  lemma {:induction false} FirstNotOfSpec(s: string, c: char)
    ensures FirstNotOf(s, c).Some? ==> forall i :: 0 <= i < FirstNotOf(s, c).value ==> s[i] == c
    ensures FirstNotOf(s, c).None? <==> forall i :: 0 <= i < |s| ==> s[i] == c
    decreases |s|
  {
    if s != "" && s[0] == c {
      FirstNotOfSpec(s[1..], c);
      assert forall i :: 1 <= i < |s| ==> s[i] == s[1..][i - 1];
    }
  }

  /** Everything after the position find_last_not_of returns is `c`, and it
      returns npos exactly when every character is `c`. */
  lemma {:induction false} LastNotOfSpec(s: string, c: char)
    ensures LastNotOf(s, c).Some? ==> forall i :: LastNotOf(s, c).value < i < |s| ==> s[i] == c
    ensures LastNotOf(s, c).None? <==> forall i :: 0 <= i < |s| ==> s[i] == c
    decreases |s|
  {
    if s != "" && s[|s| - 1] == c {
      LastNotOfSpec(s[..|s| - 1], c);
      assert forall i :: 0 <= i < |s| - 1 ==> s[i] == s[..|s| - 1][i];
    }
  }

  /** A position stored in an int: npos becomes -1. */
  function PosAsInt(p: Option<nat>): int {
    if p.None? then -1 else p.value
  }

  /** trimString with the all-space case told apart from the others: the
      string without its leading and trailing spaces (only ' ' counts). */
  function TrimString(str: string): (r: string)
    ensures r == "" <==> forall i :: 0 <= i < |str| ==> str[i] == ' '
    ensures |r| > 0 ==> Trimmed(r)
  {
    FirstNotOfSpec(str, ' ');
    LastNotOfSpec(str, ' ');
    match FirstNotOf(str, ' ')
    case None => ""
    case Some(s) =>
      var e := LastNotOf(str, ' ').value;
      assert s <= e;
      str[s..e + 1]
  }

  /** Non-empty, and neither starts nor ends with a space. */
  predicate Trimmed(p: string) {
    |p| > 0 && p[0] != ' ' && p[|p| - 1] != ' '
  }

  /** trimString as written: the two positions are kept in ints and the
      string is emptied when the first is not below the last, which also
      happens when exactly one character is not a space. What is left has
      at least two characters and no space at either end. */
  function TrimStringAsWritten(str: string): (r: string)
    ensures r != "" ==> |r| >= 2 && Trimmed(r)
  {
    FirstNotOfSpec(str, ' ');
    LastNotOfSpec(str, ' ');
    var s := PosAsInt(FirstNotOf(str, ' '));
    var e := PosAsInt(LastNotOf(str, ' '));
    if s >= e then "" else str[s..e + 1]
  }

  /** The code as written agrees with the corrected trim except that it
      also empties a result of a single character. */
  lemma TrimStringAsWrittenDropsShort(str: string)
    ensures TrimStringAsWritten(str) == (if |TrimString(str)| <= 1 then "" else TrimString(str))
  {
    FirstNotOfSpec(str, ' ');
    LastNotOfSpec(str, ' ');
  }

  /** A single-character path such as the root directory is lost by the
      code as written and kept by the corrected trim. */
  lemma RootPathTrimmedAway()
    ensures TrimStringAsWritten("/") == ""
    ensures TrimString("/") == "/"
    ensures TrimString(" / ") == "/"
  {
    assert FirstNotOf(" / ", ' ') == Some(1);
    assert LastNotOf(" / ", ' ') == Some(1);
  }

  /** TrimRight stops exactly at the last character outside `cs`. */
  lemma {:induction false} TrimRightAt(s: string, cs: set<char>, n: nat)
    requires n <= |s|
    requires forall i :: n <= i < |s| ==> s[i] in cs
    requires n > 0 ==> s[n - 1] !in cs
    ensures TrimRight(s, cs) == s[..n]
    decreases |s|
  {
    if n < |s| {
      var t := s[..|s| - 1];
      assert forall i :: n <= i < |t| ==> t[i] == s[i];
      TrimRightAt(t, cs, n);
      assert t[..n] == s[..n];
    } else {
      assert s[..n] == s;
    }
  }

  /** LeadingRun stops exactly at the first character outside `cs`. */
  lemma LeadingRunAt(s: string, cs: set<char>, n: nat)
    requires n <= |s|
    requires forall i :: 0 <= i < n ==> s[i] in cs
    requires n < |s| ==> s[n] !in cs
    ensures LeadingRun(s, cs) == n
  {
  }

  /** Trim keeps exactly the stretch between the first and the last
      character outside `cs`. */
  lemma TrimBetween(str: string, cs: set<char>, s: nat, e: nat)
    requires s <= e < |str| && str[s] !in cs && str[e] !in cs
    requires forall i :: 0 <= i < s ==> str[i] in cs
    requires forall i :: e < i < |str| ==> str[i] in cs
    ensures Trim(str, cs) == str[s..e + 1]
  {
    LeadingRunAt(str, cs, s);
    assert TrimLeft(str, cs) == str[s..];
    TrimRightOfSuffix(str, cs, s, e);
  }

  lemma TrimRightOfSuffix(str: string, cs: set<char>, s: nat, e: nat)
    requires s <= e < |str| && str[e] !in cs
    requires forall i :: e < i < |str| ==> str[i] in cs
    ensures TrimRight(str[s..], cs) == str[s..e + 1]
  {
    var l := str[s..];
    assert forall i :: e + 1 - s <= i < |l| ==> l[i] == str[i + s];
    TrimRightAt(l, cs, e + 1 - s);
    assert l[..e + 1 - s] == str[s..e + 1];
  }

  /** The corrected trimString agrees with the general trim over {' '}. */
  lemma TrimStringIsTrim(str: string)
    ensures TrimString(str) == Trim(str, {' '})
  {
    match FirstNotOf(str, ' ')
    case None =>
      assert TrimString(str) == "";
    case Some(s) =>
      FirstNotOfSpec(str, ' ');
      LastNotOfSpec(str, ' ');
      var e := LastNotOf(str, ' ').value;
      assert TrimString(str) == str[s..e + 1];
      TrimBetween(str, {' '}, s, e);
  }

  /** A string that is already trimmed is left as it is, by the code as
      written too once it has two characters or more. */
  lemma TrimStringOfTrimmed(p: string)
    requires Trimmed(p)
    ensures TrimString(p) == p
    ensures |p| >= 2 ==> TrimStringAsWritten(p) == p
  {
    assert FirstNotOf(p, ' ') == Some(0);
    assert LastNotOf(p, ' ') == Some(|p| - 1);
    assert p[0..|p|] == p;
  }

  // ---------------------------------------------------------------------------
  // get_vec_path

  /** A piece kept by get_vec_path: nothing when trimming emptied it. */
  function Keep1(t: string): (r: seq<string>)
    ensures |r| <= 1
  {
    if t == "" then [] else [t]
  }

  /** The paths get_vec_path appends while it walks the rest `rest` of the
      C string, `piece` holding the characters read since the last ';':
      each piece is trimmed by trimString when its ';' (or the end) is
      reached, and dropped when that leaves it empty. An empty piece after
      a final ';' adds nothing, as the loop in the code stops at the NUL. */
  function PathWalk(rest: string, piece: string): seq<string>
    decreases |rest|
  {
    if rest == "" then Keep1(TrimStringAsWritten(piece))
    else if rest[0] == ';' then Keep1(TrimStringAsWritten(piece)) + PathWalk(rest[1..], "")
    else PathWalk(rest[1..], piece + [rest[0]])
  }

  /** The paths a ';'-separated list names, read up to its first NUL. */
  function PathList(paths: string): seq<string> {
    PathWalk(CString(paths), "")
  }

  /** Text without a ';' only extends the current piece. */
  lemma {:induction false} WalkToEnd(a: string, piece: string)
    requires ';' !in a
    ensures PathWalk(a, piece) == Keep1(TrimStringAsWritten(piece + a))
    decreases |a|
  {
    if a == "" {
      assert piece + a == piece;
    } else {
      assert a[0] in a;
      assert ';' !in a[1..] by {
        assert forall k :: 0 <= k < |a[1..]| ==> a[1..][k] == a[k + 1];
      }
      WalkToEnd(a[1..], piece + [a[0]]);
      assert piece + [a[0]] + a[1..] == piece + a;
    }
  }

  /** The first ';' closes the current piece, which then holds everything
      read before it. */
  lemma {:induction false} WalkPastSemicolon(a: string, b: string, piece: string)
    requires ';' !in a
    ensures PathWalk(a + [';'] + b, piece)
            == Keep1(TrimStringAsWritten(piece + a)) + PathWalk(b, "")
    decreases |a|
  {
    var s := a + [';'] + b;
    if a == "" {
      assert s[1..] == b;
      assert piece + a == piece;
    } else {
      assert a[0] in a;
      assert ';' !in a[1..] by {
        assert forall k :: 0 <= k < |a[1..]| ==> a[1..][k] == a[k + 1];
      }
      assert s[0] == a[0] && s[1..] == a[1..] + [';'] + b;
      WalkPastSemicolon(a[1..], b, piece + [a[0]]);
      assert piece + [a[0]] + a[1..] == piece + a;
    }
  }

  /** Every path kept has at least two characters and neither starts nor
      ends with a space. */
  lemma {:induction false} PathWalkTrimmed(rest: string, piece: string)
    ensures forall k :: 0 <= k < |PathWalk(rest, piece)| ==>
              |PathWalk(rest, piece)[k]| >= 2 && Trimmed(PathWalk(rest, piece)[k])
    decreases |rest|
  {
    if rest != "" {
      if rest[0] == ';' {
        PathWalkTrimmed(rest[1..], "");
      } else {
        PathWalkTrimmed(rest[1..], piece + [rest[0]]);
      }
    }
  }

  /** So every path of a list has at least two characters and no space at
      either end. */
  lemma PathListTrimmed(paths: string)
    ensures forall k :: 0 <= k < |PathList(paths)| ==>
              |PathList(paths)[k]| >= 2 && Trimmed(PathList(paths)[k])
  {
    PathWalkTrimmed(CString(paths), "");
  }

  /** A group naming only the root directory, or any other one-character
      path, yields no path at all. */
  lemma OneCharacterPathDropped(c: char)
    requires c != ' ' && c != ';' && c != '\0'
    ensures PathList([c]) == []
  {
    assert CString([c]) == [c] by {
      assert CString([c]) == [c] + CString([c][1..]);
      assert [c][1..] == "";
    }
    assert PathWalk([c], "") == PathWalk("", [c]);
    assert FirstNotOf([c], ' ') == Some(0);
    assert LastNotOf([c], ' ') == Some(0);
  }

  /** Paths of two or more characters, trimmed and free of ';' and NUL,
      joined with ';' are read back as the same list. */
  lemma PathListOfJoin(paths: seq<string>)
    requires |paths| > 0
    requires forall k :: 0 <= k < |paths| ==> |paths[k]| >= 2 && Trimmed(paths[k])
    requires forall k :: 0 <= k < |paths| ==> ';' !in paths[k] && '\0' !in paths[k]
    ensures PathList(Join(paths, ";")) == paths
  {
    NoNulInJoin(paths);
    CStringWhole(Join(paths, ";"));
    PathWalkJoin(paths);
  }

  lemma {:induction false} PathWalkJoin(paths: seq<string>)
    requires |paths| > 0
    requires forall k :: 0 <= k < |paths| ==> |paths[k]| >= 2 && Trimmed(paths[k])
    requires forall k :: 0 <= k < |paths| ==> ';' !in paths[k]
    ensures PathWalk(Join(paths, ";"), "") == paths
    decreases |paths|
  {
    var p := paths[0];
    TrimStringOfTrimmed(p);
    assert "" + p == p;
    if |paths| == 1 {
      WalkToEnd(p, "");
    } else {
      var tail := Join(paths[1..], ";");
      assert Join(paths, ";") == p + [';'] + tail;
      WalkPastSemicolon(p, tail, "");
      PathWalkJoin(paths[1..]);
      HeadTail(paths);
    }
  }

  lemma HeadTail(xs: seq<string>)
    requires |xs| > 0
    ensures xs == [xs[0]] + xs[1..]
  {
  }

  lemma {:induction false} NoNulInJoin(paths: seq<string>)
    requires forall k :: 0 <= k < |paths| ==> '\0' !in paths[k]
    ensures '\0' !in Join(paths, ";")
    decreases |paths|
  {
    if |paths| > 1 {
      NoNulInJoin(paths[1..]);
    }
  }

  /** get_vec_path: walks the C string piece by piece, appending each
      non-empty trimmed piece to `vec`; true when `vec` is then non-empty. */
  method GetVecPath(vec: seq<string>, paths: string) returns (out: seq<string>, ok: bool)
    ensures out == vec + PathList(paths)
    ensures ok <==> |out| > 0
  {
    var rest := CString(paths);
    out := vec;
    while rest != ""
      invariant out + PathWalk(rest, "") == vec + PathList(paths)
      decreases |rest|
    {
      ghost var before := out;
      match FindChar(rest, ';')
      case None =>
        var path := TrimStringAsWritten(rest);
        if |path| > 0 {
          out := out + [path];
        }
        WalkLast(rest);
        assert out == before + Keep1(path) + PathWalk("", "");
        rest := "";
      case Some(i) =>
        var path := TrimStringAsWritten(rest[..i]);
        if |path| > 0 {
          out := out + [path];
        }
        WalkNext(rest, i);
        AppendAssoc(before, Keep1(path), PathWalk(rest[i + 1..], ""));
        rest := rest[i + 1..];
    }
    ok := |out| > 0;
  }

  /** The last piece runs to the end of the string. */
  lemma WalkLast(rest: string)
    requires FindChar(rest, ';') == None
    ensures PathWalk(rest, "") == Keep1(TrimStringAsWritten(rest))
  {
    WalkToEnd(rest, "");
    assert "" + rest == rest;
  }

  /** A piece closed by the ';' strchr finds. */
  lemma WalkNext(rest: string, i: nat)
    requires FindChar(rest, ';') == Some(i)
    ensures i < |rest|
    ensures PathWalk(rest, "") == Keep1(TrimStringAsWritten(rest[..i])) + PathWalk(rest[i + 1..], "")
  {
    var a, b := rest[..i], rest[i + 1..];
    SplitAround(rest, i);
    WalkPastSemicolon(a, b, "");
    EmptyPrefix(a);
  }

  lemma SplitAround(s: string, i: nat)
    requires i < |s|
    ensures s == s[..i] + [s[i]] + s[i + 1..]
  {
  }

  lemma EmptyPrefix(s: string)
    ensures "" + s == s
  {
  }

  lemma AppendAssoc(a: seq<string>, b: seq<string>, c: seq<string>)
    ensures a + (b + c) == (a + b) + c
  {
  }

  // ---------------------------------------------------------------------------
  // Reading du and df output

  /** fgets(buf, 256, …) keeps one byte for the NUL. */
  const LINE_MAX: nat := 255

  /** fgets on the text still to be read: None at the end of the input, else
      the line read (newline included, at most LINE_MAX characters) and what
      is left after it. */
  function Fgets(s: string): (r: Option<(string, string)>)
    ensures r.None? <==> s == ""
    ensures r.Some? ==> r.value.0 + r.value.1 == s && 0 < |r.value.0| <= LINE_MAX
    ensures r.Some? ==> '\n' !in r.value.0[..|r.value.0| - 1]
    ensures r.Some? ==> |r.value.0| == LINE_MAX || r.value.1 == "" || r.value.0[|r.value.0| - 1] == '\n'
  {
    if s == "" then None
    else
      var n := match FindChar(s, '\n') case None => |s| case Some(i) => i + 1;
      var k := if n < LINE_MAX then n else LINE_MAX;
      assert s[..k][..k - 1] == s[..k - 1];
      Some((s[..k], s[k..]))
  }

  /** A short line is read whole, newline included. */
  lemma FgetsLine(line: string, rest: string)
    requires '\n' !in line && |line| < LINE_MAX
    ensures Fgets(line + ("\n" + rest)) == Some((line + "\n", rest))
  {
    FindCharAt(line, '\n', rest);
  }

  /** A C string without NUL is the whole string. */
  lemma CStringWhole(s: string)
    requires '\0' !in s
    ensures CString(s) == s
  {
    assert forall i :: 0 <= i < |s| ==> s[i] != '\0';
    assert s[..|s|] == s;
  }

  /** The first line of the output as the C string fgets leaves in `buf`. */
  function FirstLine(out: string): (r: Option<string>)
    ensures r.None? <==> out == ""
  {
    match Fgets(out)
    case None => None
    case Some(lr) => Some(CString(lr.0))
  }

  /** The second line likewise. */
  function SecondLine(out: string): (r: Option<string>) {
    match Fgets(out)
    case None => None
    case Some(l1) => FirstLine(l1.1)
  }

  lemma FirstLineOf(line: string, rest: string)
    requires '\n' !in line && '\0' !in line && |line| < LINE_MAX
    ensures FirstLine(line + ("\n" + rest)) == Some(line + "\n")
  {
    FgetsLine(line, rest);
    CStringWhole(line + "\n");
  }

  lemma SecondLineOf(header: string, line: string, rest: string)
    requires '\n' !in header && |header| < LINE_MAX
    requires '\n' !in line && '\0' !in line && |line| < LINE_MAX
    ensures SecondLine(header + ("\n" + (line + ("\n" + rest)))) == Some(line + "\n")
  {
    FgetsLine(header, line + ("\n" + rest));
    FirstLineOf(line, rest);
  }

  /** `>> 10` on a long: the floor of the quotient by 1024. */
  function ShiftRight10(v: int): (r: int)
    ensures r * 1024 <= v < r * 1024 + 1024
  {
    v / 1024
  }

  /** The conversion of a long to uint64_t: reduction modulo 2^64. */
  function ToUInt64(v: int): (r: nat)
    ensures r < TWO_64
    ensures 0 <= v < TWO_64 ==> r == v
  {
    v % 0x1_0000_0000_0000_0000
  }

  /** atol of the text before the first tab, in MB. */
  function UsedOfLine(line: string): (r: Option<nat>)
    ensures r.Some? ==> r.value < TWO_64
    ensures r.Some? <==> '\t' in line
  {
    match FindChar(line, '\t')
    case None => None
    case Some(i) => Some(ToUInt64(ShiftRight10(Atoi(line[..i]))))
  }

  /** get_path_used on the output of `du --max-depth=0 <path>`: the number
      before the first tab of the first line, in MB; None when there is no
      output or no tab in its first line. */
  function PathUsed(out: string): (r: Option<nat>)
    ensures r.Some? ==> r.value < TWO_64
    ensures r.Some? <==> FirstLine(out).Some? && '\t' in FirstLine(out).value
  {
    match FirstLine(out)
    case None => None
    case Some(line) => UsedOfLine(line)
  }

  lemma UsedOfDigits(d: string, x: string)
    requires |d| > 0 && AllDigits(d) && DigitsValue(d) < TWO_64
    ensures UsedOfLine(d + ("\t" + x)) == Some(DigitsValue(d) / 1024)
  {
    assert '\t' !in d by {
      forall i | 0 <= i < |d| ensures d[i] != '\t' { assert IsDigit(d[i]); }
    }
    FindCharAt(d, '\t', x);
    var v := DigitsValue(d);
    assert Atoi((d + ("\t" + x))[..|d|]) == v by {
      assert d + "" == d;
      AtoiOfDigits(d, "");
    }
    assert ShiftRight10(v) == v / 1024;
    assert ToUInt64(v / 1024) == v / 1024;
  }

  /** A du line "<n>\t<path>\n" is read back as n >> 10. */
  lemma DuLineRead(n: nat, path: string, rest: string)
    requires n < TWO_64
    requires '\n' !in path && '\0' !in path
    requires |NatToString(n)| + 1 + |path| < LINE_MAX
    ensures PathUsed(NatToString(n) + ("\t" + path) + ("\n" + rest)) == Some(n / 1024)
  {
    var d := NatToString(n);
    var line := d + ("\t" + path);
    assert '\n' !in d && '\0' !in d by {
      forall i | 0 <= i < |d| ensures d[i] != '\n' && d[i] != '\0' { assert IsDigit(d[i]); }
    }
    FirstLineOf(line, rest);
    assert line + "\n" == d + ("\t" + (path + "\n"));
    DigitsValueOfNatToString(n);
    UsedOfDigits(d, path + "\n");
  }

  /** strchr(p, ' ') and the skip over the run of spaces it found: the text
      from the next field on, or None when there is no space. */
  function NextField(l: string): (r: Option<string>)
    ensures r.Some? ==> |r.value| < |l|
  {
    match FindChar(l, ' ')
    case None => None
    case Some(i) => Some(TrimLeft(l[i..], {' '}))
  }

  lemma NextFieldOf(f: string, x: string)
    requires ' ' !in f && |x| > 0 && x[0] != ' '
    ensures NextField(f + (" " + x)) == Some(x)
  {
    FindCharAt(f, ' ', x);
    var t := (f + (" " + x))[|f|..];
    assert t == " " + x;
    assert t[1..] == x;
    assert LeadingRun(t[1..], {' '}) == 0;
  }

  /** Three fields skipped: the text from the fourth field of a line on. */
  function FieldFour(line: string): Option<string> {
    match NextField(line)
    case None => None
    case Some(f2) =>
      match NextField(f2)
      case None => None
      case Some(f3) => NextField(f3)
  }

  lemma FieldFourOf(f1: string, f2: string, f3: string, x: string)
    requires ' ' !in f1 && ' ' !in f2 && ' ' !in f3
    requires |f2| > 0 && |f3| > 0 && |x| > 0 && x[0] != ' '
    ensures FieldFour(f1 + (" " + (f2 + (" " + (f3 + (" " + x)))))) == Some(x)
  {
    var x3 := f3 + (" " + x);
    var x2 := f2 + (" " + x3);
    assert x3[0] == f3[0] && x2[0] == f2[0];
    NextFieldOf(f1, x2);
    NextFieldOf(f2, x3);
    NextFieldOf(f3, x);
  }

  /** The text from the fourth space-separated field of the second line of
      `df <path>` on. */
  function FourthField(out: string): (r: Option<string>) {
    match SecondLine(out)
    case None => None
    case Some(line) => FieldFour(line)
  }

  /** What get_path_free does as written. */
  datatype FreeRead =
    | NoFree          // false: no second line, or fewer than three spaces
    | NullWrite       // no space after the fourth field: `*q = '\0'` with q == NULL
    | Free(mb: nat)   // true, with the free space in MB

  /** get_path_free as written: after the fourth strchr the code tests `p`
      again instead of `q`, so a second line that ends with its fourth field
      writes through a null pointer. */
  function PathFreeAsWritten(out: string): (r: FreeRead)
    ensures r.Free? ==> r.mb < TWO_64
    ensures r == NullWrite <==> FourthField(out).Some? && ' ' !in FourthField(out).value
  {
    match FourthField(out)
    case None => NoFree
    case Some(f4) =>
      if ' ' !in f4 then NullWrite else Free(ToUInt64(ShiftRight10(Atoi(f4))))
  }

  /** get_path_free with `q` tested: the "Available" column (the fourth field
      of the second line) in MB, or None. */
  function PathFree(out: string): (r: Option<nat>)
    ensures r.Some? ==> r.value < TWO_64
    ensures r.Some? <==> PathFreeAsWritten(out).Free?
    ensures r.Some? ==> r.value == PathFreeAsWritten(out).mb
  {
    match FourthField(out)
    case None => None
    case Some(f4) =>
      if ' ' !in f4 then None else Some(ToUInt64(ShiftRight10(Atoi(f4))))
  }

  /** A line of df output: four fields separated by single spaces. */
  function Row(f1: string, f2: string, f3: string, f4: string): string {
    f1 + " " + f2 + " " + f3 + " " + f4
  }

  /** A character that no field holds, other than the space, is not in the
      line either. */
  lemma RowLacks(c: char, f1: string, f2: string, f3: string, f4: string)
    requires c != ' ' && c !in f1 && c !in f2 && c !in f3 && c !in f4
    ensures c !in Row(f1, f2, f3, f4)
  {
  }

  /** The line followed by a newline, grouped the way the field skipping
      reads it. */
  lemma RowNewline(f1: string, f2: string, f3: string, f4: string)
    ensures Row(f1, f2, f3, f4) + "\n" == f1 + (" " + (f2 + (" " + (f3 + (" " + (f4 + "\n"))))))
  {
  }

  /** Where the fourth field of a df listing starts. */
  lemma FourthFieldOf(header: string, f1: string, f2: string, f3: string, f4: string, rest: string)
    requires '\n' !in header && |header| < LINE_MAX
    requires ' ' !in f1 && ' ' !in f2 && ' ' !in f3
    requires |f2| > 0 && |f3| > 0 && |f4| > 0 && f4[0] != ' '
    requires '\n' !in f1 && '\n' !in f2 && '\n' !in f3 && '\n' !in f4
    requires '\0' !in f1 && '\0' !in f2 && '\0' !in f3 && '\0' !in f4
    requires |Row(f1, f2, f3, f4)| < LINE_MAX
    ensures FourthField(header + ("\n" + (Row(f1, f2, f3, f4) + ("\n" + rest)))) == Some(f4 + "\n")
  {
    RowLacks('\n', f1, f2, f3, f4);
    RowLacks('\0', f1, f2, f3, f4);
    SecondLineOf(header, Row(f1, f2, f3, f4), rest);
    RowNewline(f1, f2, f3, f4);
    FieldFourOf(f1, f2, f3, f4 + "\n");
  }

  /** The fourth field "<n> <tail>\n" is read back as n >> 10. */
  lemma FreeOfField(n: nat, tail: string)
    requires n < TWO_64
    ensures ' ' in NatToString(n) + " " + tail + "\n"
    ensures ToUInt64(ShiftRight10(Atoi(NatToString(n) + " " + tail + "\n"))) == n / 1024
  {
    var d := NatToString(n);
    assert (d + " " + tail + "\n")[|d|] == ' ';
    assert d + " " + tail + "\n" == d + (" " + tail + "\n");
    AtoiOfDigits(d, " " + tail + "\n");
    DigitsValueOfNatToString(n);
  }

  /** The digits of a number hold neither a space, a newline nor a NUL. */
  lemma DigitsLack(n: nat)
    ensures |NatToString(n)| > 0 && NatToString(n)[0] != ' '
    ensures ' ' !in NatToString(n) && '\n' !in NatToString(n) && '\0' !in NatToString(n)
  {
    var d := NatToString(n);
    assert forall i :: 0 <= i < |d| ==> IsDigit(d[i]);
  }

  /** A df listing whose second line is "<f1> <f2> <f3> <n> <tail>" gives
      n >> 10. */
  lemma DfLineRead(header: string, f1: string, f2: string, f3: string, n: nat, tail: string, rest: string)
    requires n < TWO_64
    requires '\n' !in header && |header| < LINE_MAX
    requires ' ' !in f1 && ' ' !in f2 && ' ' !in f3
    requires |f2| > 0 && |f3| > 0
    requires '\n' !in f1 && '\n' !in f2 && '\n' !in f3 && '\n' !in tail
    requires '\0' !in f1 && '\0' !in f2 && '\0' !in f3 && '\0' !in tail
    requires |Row(f1, f2, f3, NatToString(n) + " " + tail)| < LINE_MAX
    ensures PathFree(header + ("\n" + (Row(f1, f2, f3, NatToString(n) + " " + tail) + ("\n" + rest))))
            == Some(n / 1024)
  {
    var d := NatToString(n);
    DigitsLack(n);
    assert (d + " " + tail)[0] == d[0];
    assert '\n' !in d + " " + tail && '\0' !in d + " " + tail;
    FourthFieldOf(header, f1, f2, f3, d + " " + tail, rest);
    FreeOfField(n, tail);
  }

  /** A second line that ends with its fourth field: the code as written
      writes through a null pointer, the corrected one reports failure. */
  lemma FourFieldLineWritesThroughNull(header: string, f1: string, f2: string, f3: string, n: nat, rest: string)
    requires '\n' !in header && |header| < LINE_MAX
    requires ' ' !in f1 && ' ' !in f2 && ' ' !in f3
    requires |f2| > 0 && |f3| > 0
    requires '\n' !in f1 && '\n' !in f2 && '\n' !in f3
    requires '\0' !in f1 && '\0' !in f2 && '\0' !in f3
    requires |Row(f1, f2, f3, NatToString(n))| < LINE_MAX
    ensures PathFreeAsWritten(header + ("\n" + (Row(f1, f2, f3, NatToString(n)) + ("\n" + rest))))
            == NullWrite
    ensures PathFree(header + ("\n" + (Row(f1, f2, f3, NatToString(n)) + ("\n" + rest)))).None?
  {
    DigitsLack(n);
    FourthFieldOf(header, f1, f2, f3, NatToString(n), rest);
    assert ' ' !in NatToString(n) + "\n";
  }

  // ---------------------------------------------------------------------------
  // set_path_space

  /** The directory under each of the four path groups whose use `du`
      measures, and the JSON key of each group. */
  const SUB_PATHS: seq<string> := [
    "/instance_data/data_dir_path", "/instance_data/log_dir_path",
    "/instance_data/innodb_log_dir_path", "/instance_data/comp_datadir"]
  const PATH_KEYS: seq<string> := ["paths0", "paths1", "paths2", "paths3"]
  const GROUPS: nat := 4

  /** A path's entry: Tpye_Path_Used_Free stores the two uint64 megabyte
      counts in ints, which keeps their low 32 bits. */
  datatype PathUsage = PathUsage(path: string, used: int32, free: int32)

  function Int32Of(x: nat): (r: int32)
    ensures r % TWO_32 == x % TWO_32
  {
    U32ToI32(x % TWO_32)
  }

  /** get_path_used's answer for a path, 0 when it cannot be read. */
  function UsedOr0(used: map<string, nat>, p: string): nat {
    if p in used then used[p] else 0
  }

  /** The paths of a group whose free space cannot be read, in order. */
  function FailedPaths(paths: seq<string>, free: map<string, nat>): (r: seq<string>)
    ensures |r| <= |paths|
  {
    if |paths| == 0 then []
    else (if paths[0] !in free then [paths[0]] else []) + FailedPaths(paths[1..], free)
  }

  /** The entries of the paths whose free space can be read, in order; a
      path whose use cannot be read counts 0 used. */
  function Usages(paths: seq<string>, sub: string, free: map<string, nat>, used: map<string, nat>)
    : (r: seq<PathUsage>)
    ensures |r| <= |paths|
  {
    if |paths| == 0 then []
    else
      EntryOf(paths[0], sub, free, used) + Usages(paths[1..], sub, free, used)
  }

  /** The entry one path adds: none when its free space cannot be read. */
  function EntryOf(p: string, sub: string, free: map<string, nat>, used: map<string, nat>): (r: seq<PathUsage>)
    ensures |r| == (if p in free then 1 else 0)
  {
    if p !in free then [] else [PathUsage(p, Int32Of(UsedOr0(used, p + sub)), Int32Of(free[p]))]
  }

  /** The path list get_vec_path gives for each of the four groups. */
  function PathLists(vecPaths: seq<string>): (r: seq<seq<string>>)
    requires |vecPaths| >= GROUPS
    ensures |r| == GROUPS
  {
    seq(GROUPS, i requires 0 <= i < GROUPS => PathList(vecPaths[i]))
  }

  /** A group set_path_space accepts: get_vec_path finds paths in it and
      the free space of each can be read. */
  predicate GroupReadable(ps: seq<string>, free: map<string, nat>) {
    ps != [] && forall p :: p in ps ==> p in free
  }

  /** What a group adds to the error list, given the paths get_vec_path
      found in it: the group's own text when there are none, else its paths
      whose free space cannot be read. */
  function GroupFailures(group: string, ps: seq<string>, free: map<string, nat>): seq<string> {
    if ps == [] then [group] else FailedPaths(ps, free)
  }

  /** The error list of the first `n` groups. */
  function Failures(vecPaths: seq<string>, lists: seq<seq<string>>, n: nat, free: map<string, nat>): seq<string>
    requires n <= |vecPaths| && n <= |lists|
  {
    if n == 0 then []
    else Failures(vecPaths, lists, n - 1, free) + GroupFailures(vecPaths[n - 1], lists[n - 1], free)
  }

  /** The entry lists of the first `n` groups; a group with no paths adds
      no list. */
  function GroupsOf(lists: seq<seq<string>>, n: nat, free: map<string, nat>, used: map<string, nat>)
    : seq<seq<PathUsage>>
    requires n <= |lists| && n <= |SUB_PATHS|
  {
    if n == 0 then []
    else
      GroupsOf(lists, n - 1, free, used)
        + (if lists[n - 1] == [] then [] else [Usages(lists[n - 1], SUB_PATHS[n - 1], free, used)])
  }

  /** The error text grows as `info += ";" + x`, or `info = x` while it is
      still empty. */
  function AddInfo(info: string, x: string): string {
    if |info| > 0 then info + ";" + x else x
  }

  function InfoFrom(info: string, xs: seq<string>): string
    decreases |xs|
  {
    if |xs| == 0 then info else InfoFrom(AddInfo(info, xs[0]), xs[1..])
  }

  /** With non-empty items the error text is the items joined with ';'. */
  lemma InfoIsJoin(xs: seq<string>)
    requires forall k :: 0 <= k < |xs| ==> |xs[k]| > 0
    ensures InfoFrom("", xs) == Join(xs, ";")
  {
    if |xs| > 0 {
      InfoAfter(xs[0], xs[1..]);
      assert xs == [xs[0]] + xs[1..];
    }
  }

  lemma {:induction false} InfoAfter(info: string, xs: seq<string>)
    requires |info| > 0
    requires forall k :: 0 <= k < |xs| ==> |xs[k]| > 0
    ensures InfoFrom(info, xs) == if |xs| == 0 then info else info + ";" + Join(xs, ";")
    decreases |xs|
  {
    if |xs| > 0 {
      var next := info + ";" + xs[0];
      InfoAfter(next, xs[1..]);
      if |xs| > 1 {
        assert next + ";" + Join(xs[1..], ";") == info + ";" + (xs[0] + ";" + Join(xs[1..], ";"));
      }
    }
  }

  lemma {:induction false} InfoAppend(info: string, xs: seq<string>, ys: seq<string>)
    ensures InfoFrom(info, xs + ys) == InfoFrom(InfoFrom(info, xs), ys)
    decreases |xs|
  {
    if |xs| > 0 {
      assert (xs + ys)[0] == xs[0];
      assert (xs + ys)[1..] == xs[1..] + ys;
      InfoAppend(AddInfo(info, xs[0]), xs[1..], ys);
    } else {
      assert xs + ys == ys;
    }
  }

  function UsageJson(u: PathUsage): Value {
    Object(map["path" := Text(u.path), "used" := Number(u.used), "free" := Number(u.free)])
  }

  /** A group's entries as a JSON array, one object per path, in order. */
  function GroupJson(us: seq<PathUsage>): (r: Value)
    ensures |Elements(r)| == |us|
    ensures forall i :: 0 <= i < |us| ==> Elements(r)[i] == UsageJson(us[i])
  {
    Array(UsageJsons(us))
  }

  function UsageJsons(us: seq<PathUsage>): (r: seq<Value>)
    ensures |r| == |us|
    ensures forall i :: 0 <= i < |us| ==> r[i] == UsageJson(us[i])
  {
    if us == [] then [] else [UsageJson(us[0])] + UsageJsons(us[1..])
  }

  /** The answer when every group and path could be read. */
  function SuccessJson(groups: seq<seq<PathUsage>>): (r: Value)
    requires |groups| == GROUPS
    ensures Member(r, "result") == Text("succeed") && Member(r, "info") == Text("")
    ensures Member(r, "paths0") == GroupJson(groups[0])
    ensures Member(r, "paths1") == GroupJson(groups[1])
    ensures Member(r, "paths2") == GroupJson(groups[2])
    ensures Member(r, "paths3") == GroupJson(groups[3])
  {
    SuccessObject(GroupJson(groups[0]), GroupJson(groups[1]), GroupJson(groups[2]), GroupJson(groups[3]))
  }

  function SuccessObject(g0: Value, g1: Value, g2: Value, g3: Value): (r: Value)
    ensures Member(r, "result") == Text("succeed") && Member(r, "info") == Text("")
    ensures Member(r, "paths0") == g0 && Member(r, "paths1") == g1
    ensures Member(r, "paths2") == g2 && Member(r, "paths3") == g3
  {
    KeysDistinct();
    Object(map["result" := Text("succeed"), "info" := Text(""),
               "paths0" := g0, "paths1" := g1, "paths2" := g2, "paths3" := g3])
  }

  /** The six keys of the answer are different strings. */
  lemma KeysDistinct()
    ensures "paths0" != "result" && "paths1" != "result" && "paths2" != "result" && "paths3" != "result"
    ensures "paths0" != "info" && "paths1" != "info" && "paths2" != "info" && "paths3" != "info"
    ensures "paths0" != "paths1" && "paths0" != "paths2" && "paths0" != "paths3"
    ensures "paths1" != "paths2" && "paths1" != "paths3" && "paths2" != "paths3"
  {
    assert "paths0"[0] != "result"[0];
    assert "paths1"[0] != "result"[0];
    assert "paths2"[0] != "result"[0];
    assert "paths3"[0] != "result"[0];
    assert "paths0"[5] != "paths1"[5];
    assert "paths0"[5] != "paths2"[5];
    assert "paths0"[5] != "paths3"[5];
    assert "paths1"[5] != "paths2"[5];
    assert "paths1"[5] != "paths3"[5];
    assert "paths2"[5] != "paths3"[5];
  }

  /** The answer when something failed. */
  function ErrorJson(info: string): (r: Value)
    ensures Member(r, "result") == Text("error") && Member(r, "info") == Text(info)
    ensures forall i :: 0 <= i < GROUPS ==> !IsMember(r, PATH_KEYS[i])
  {
    Object(map["result" := Text("error"), "info" := Text(info)])
  }

  /** Each path either has an entry or is among the failures. */
  lemma {:induction false} UsagesCount(paths: seq<string>, sub: string, free: map<string, nat>, used: map<string, nat>)
    ensures |Usages(paths, sub, free, used)| + |FailedPaths(paths, free)| == |paths|
    decreases |paths|
  {
    if |paths| > 0 {
      UsagesCount(paths[1..], sub, free, used);
    }
  }

  lemma {:induction false} UsagesSnoc(ps: seq<string>, j: nat, sub: string, free: map<string, nat>, used: map<string, nat>)
    requires j < |ps|
    ensures Usages(ps[..j + 1], sub, free, used) == Usages(ps[..j], sub, free, used) + EntryOf(ps[j], sub, free, used)
    decreases j
  {
    if j > 0 {
      UsagesSnoc(ps[1..], j - 1, sub, free, used);
      assert ps[..j + 1][1..] == ps[1..][..j];
      assert ps[..j][1..] == ps[1..][..j - 1];
    } else {
      assert ps[..1] == [ps[0]];
    }
  }

  lemma {:induction false} FailedPathsSnoc(ps: seq<string>, j: nat, free: map<string, nat>)
    requires j < |ps|
    ensures FailedPaths(ps[..j + 1], free)
            == FailedPaths(ps[..j], free) + (if ps[j] !in free then [ps[j]] else [])
    decreases j
  {
    if j > 0 {
      FailedPathsSnoc(ps[1..], j - 1, free);
      assert ps[..j + 1][1..] == ps[1..][..j];
      assert ps[..j][1..] == ps[1..][..j - 1];
    } else {
      assert ps[..1] == [ps[0]];
    }
  }

  /** The inner loop of set_path_space over one group's paths: the
      entries of the paths whose free space can be read and, in order, the
      paths whose free space cannot. */
  method ReadGroup(ps: seq<string>, sub: string, free: map<string, nat>, used: map<string, nat>)
    returns (entries: seq<PathUsage>, failed: seq<string>)
    ensures entries == Usages(ps, sub, free, used)
    ensures failed == FailedPaths(ps, free)
  {
    entries := [];
    failed := [];
    for j := 0 to |ps|
      invariant entries == Usages(ps[..j], sub, free, used)
      invariant failed == FailedPaths(ps[..j], free)
    {
      var path := ps[j];
      FailedPathsSnoc(ps, j, free);
      UsagesSnoc(ps, j, sub, free, used);
      if path !in free {
        failed := failed + [path];
      } else {
        var u := UsedOr0(used, path + sub);
        entries := entries + [PathUsage(path, Int32Of(u), Int32Of(free[path]))];
      }
    }
    assert ps[..|ps|] == ps;
  }

  /** get_vec_path on each of the four groups. */
  method GetPathLists(vecPaths: seq<string>) returns (lists: seq<seq<string>>)
    requires |vecPaths| >= GROUPS
    ensures |lists| == GROUPS
    ensures forall k :: 0 <= k < GROUPS ==> lists[k] == PathList(vecPaths[k])
  {
    lists := [];
    for i := 0 to GROUPS
      invariant |lists| == i
      invariant forall k :: 0 <= k < i ==> lists[k] == PathList(vecPaths[k])
    {
      var ps, _ := GetVecPath([], vecPaths[i]);
      ListsSnoc(vecPaths, lists, i, ps);
      lists := lists + [ps];
    }
  }

  lemma ListsSnoc(vecPaths: seq<string>, lists: seq<seq<string>>, i: nat, ps: seq<string>)
    requires i < |vecPaths| && |lists| == i
    requires forall k :: 0 <= k < i ==> lists[k] == PathList(vecPaths[k])
    requires ps == PathList(vecPaths[i])
    ensures forall k :: 0 <= k < i + 1 ==> (lists + [ps])[k] == PathList(vecPaths[k])
  {
    forall k | 0 <= k < i + 1 ensures (lists + [ps])[k] == PathList(vecPaths[k]) {
      if k < i {
        assert (lists + [ps])[k] == lists[k];
      } else {
        assert (lists + [ps])[k] == ps;
      }
    }
  }

  lemma ListsArePathLists(vecPaths: seq<string>, lists: seq<seq<string>>)
    requires |vecPaths| >= GROUPS && |lists| == GROUPS
    requires forall k :: 0 <= k < GROUPS ==> lists[k] == PathList(vecPaths[k])
    ensures lists == PathLists(vecPaths)
  {
  }

  /** The rest of set_path_space once get_vec_path has given each group's
      paths: the error text, the entry lists kept and the JSON answer. */
  method AssemblePathSpace(vecPaths: seq<string>, lists: seq<seq<string>>, free: map<string, nat>, used: map<string, nat>)
    returns (ok: bool, groups: seq<seq<PathUsage>>, result: Value)
    requires |vecPaths| >= GROUPS && |lists| == GROUPS
    ensures ok <==> forall i :: 0 <= i < GROUPS ==> GroupReadable(lists[i], free)
    ensures ok <==> Failures(vecPaths, lists, GROUPS, free) == []
    ensures groups == GroupsOf(lists, GROUPS, free, used)
    ensures ok ==> |groups| == GROUPS && result == SuccessJson(groups)
    ensures !ok ==> result == ErrorJson(InfoFrom("", Failures(vecPaths, lists, GROUPS, free)) + " is error")
  {
    var info;
    ok, info, groups := AssembleGroups(vecPaths, lists, free, used);
    FailuresIff(vecPaths, lists, GROUPS, free);
    if ok {
      GroupsWhenNothingFailed(vecPaths, lists, GROUPS, free, used);
      result := SuccessJson(groups);
    } else {
      result := ErrorJson(info + " is error");
    }
  }

  /** The loop over the four groups: whether nothing failed, the error
      text and the entry lists kept. */
  method AssembleGroups(vecPaths: seq<string>, lists: seq<seq<string>>, free: map<string, nat>, used: map<string, nat>)
    returns (ok: bool, info: string, groups: seq<seq<PathUsage>>)
    requires |vecPaths| >= GROUPS && |lists| == GROUPS
    ensures ok <==> Failures(vecPaths, lists, GROUPS, free) == []
    ensures info == InfoFrom("", Failures(vecPaths, lists, GROUPS, free))
    ensures groups == GroupsOf(lists, GROUPS, free, used)
  {
    ok := true;
    info := "";
    groups := [];
    for i := 0 to GROUPS
      invariant ok <==> Failures(vecPaths, lists, i, free) == []
      invariant info == InfoFrom("", Failures(vecPaths, lists, i, free))
      invariant groups == GroupsOf(lists, i, free, used)
    {
      ok, info, groups := AssembleGroup(vecPaths, lists, i, free, used, ok, info, groups);
    }
  }

  /** One pass of the loop over the groups: a group without paths adds its
      own text to the error list and no entry list; otherwise its failed
      paths go to the error list and its entries are kept. */
  method AssembleGroup(vecPaths: seq<string>, lists: seq<seq<string>>, i: nat,
                       free: map<string, nat>, used: map<string, nat>,
                       ok: bool, info: string, groups: seq<seq<PathUsage>>)
    returns (ok': bool, info': string, groups': seq<seq<PathUsage>>)
    requires |vecPaths| >= GROUPS && |lists| == GROUPS && i < GROUPS
    requires ok <==> Failures(vecPaths, lists, i, free) == []
    requires info == InfoFrom("", Failures(vecPaths, lists, i, free))
    requires groups == GroupsOf(lists, i, free, used)
    ensures ok' <==> Failures(vecPaths, lists, i + 1, free) == []
    ensures info' == InfoFrom("", Failures(vecPaths, lists, i + 1, free))
    ensures groups' == GroupsOf(lists, i + 1, free, used)
  {
    var ps := lists[i];
    ghost var before := Failures(vecPaths, lists, i, free);
    assert Failures(vecPaths, lists, i + 1, free) == before + GroupFailures(vecPaths[i], ps, free);
    if ps == [] {
      InfoAppend("", before, [vecPaths[i]]);
      info' := AddInfo(info, vecPaths[i]);
      ok' := false;
      groups' := groups;
    } else {
      var entries, failed := ReadGroup(ps, SUB_PATHS[i], free, used);
      InfoAppend("", before, failed);
      info' := InfoFrom(info, failed);
      ok' := ok && failed == [];
      groups' := groups + [entries];
    }
  }

  /** The error list is empty exactly when every group is readable. */
  lemma {:induction false} FailuresIff(vecPaths: seq<string>, lists: seq<seq<string>>, n: nat, free: map<string, nat>)
    requires n <= |vecPaths| && n <= |lists|
    ensures Failures(vecPaths, lists, n, free) == [] <==> forall k :: 0 <= k < n ==> GroupReadable(lists[k], free)
  {
    if n > 0 {
      FailuresIff(vecPaths, lists, n - 1, free);
      GroupFailuresIff(vecPaths[n - 1], lists[n - 1], free);
    }
  }

  /** set_path_space over the four ';'-separated path lists, with the free
      and used megabytes get_path_free and get_path_used read for each path
      (a path missing from a map is one whose command failed): true exactly
      when every group names a path and the free space of each can be read;
      on success the answer lists every group's entries, otherwise it names
      what failed. */
  method SetPathSpace(vecPaths: seq<string>, free: map<string, nat>, used: map<string, nat>)
    returns (ok: bool, groups: seq<seq<PathUsage>>, result: Value)
    requires |vecPaths| >= GROUPS
    ensures ok <==> forall i :: 0 <= i < GROUPS ==> GroupReadable(PathList(vecPaths[i]), free)
    ensures groups == GroupsOf(PathLists(vecPaths), GROUPS, free, used)
    ensures ok ==> |groups| == GROUPS && result == SuccessJson(groups)
    ensures !ok ==> result == ErrorJson(InfoFrom("", Failures(vecPaths, PathLists(vecPaths), GROUPS, free)) + " is error")
  {
    var lists := GetPathLists(vecPaths);
    ListsArePathLists(vecPaths, lists);
    ok, groups, result := AssemblePathSpace(vecPaths, lists, free, used);
  }

  lemma {:induction false} GroupsWhenNothingFailed(vecPaths: seq<string>, lists: seq<seq<string>>, n: nat,
                                                   free: map<string, nat>, used: map<string, nat>)
    requires n <= |vecPaths| && n <= |lists| && n <= |SUB_PATHS|
    requires Failures(vecPaths, lists, n, free) == []
    ensures |GroupsOf(lists, n, free, used)| == n
  {
    if n > 0 {
      GroupsWhenNothingFailed(vecPaths, lists, n - 1, free, used);
    }
  }

  /** A path is among a group's failures exactly when its free space cannot
      be read. */
  lemma {:induction false} FailedPathsIff(paths: seq<string>, free: map<string, nat>, p: string)
    ensures p in FailedPaths(paths, free) <==> p in paths && p !in free
    decreases |paths|
  {
    if |paths| > 0 {
      FailedPathsIff(paths[1..], free, p);
      assert paths == [paths[0]] + paths[1..];
    }
  }

  /** A group adds nothing to the error list exactly when get_vec_path
      found paths in it and the free space of each can be read. */
  lemma GroupFailuresIff(group: string, ps: seq<string>, free: map<string, nat>)
    ensures GroupFailures(group, ps, free) == [] <==> GroupReadable(ps, free)
  {
    if ps != [] {
      forall p | p in ps ensures FailedPaths(ps, free) == [] ==> p in free {
        FailedPathsIff(ps, free, p);
      }
      if FailedPaths(ps, free) != [] {
        FailedPathsIff(ps, free, FailedPaths(ps, free)[0]);
      }
    }
  }
}
