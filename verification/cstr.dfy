/** C and C++ string primitives the node manager relies on: strchr/rfind,
    strstr, atoi-style decimal parsing, decimal rendering, and the zettalib
    helpers StringTokenize, trim-with-a-character-set, StringReplace and
    contains, whose sources are not part of this model and are given the
    definitions stated in README. Strings are `seq<char>`; a C string ends
    at its first NUL, which `CString` makes explicit. */
module CStr {
  import opened Wrappers

  /** The characters `isspace` accepts in the "C" locale. */
  predicate IsSpace(c: char) {
    c == ' ' || c == '\t' || c == '\n' || c == '\U{0B}' || c == '\U{0C}' || c == '\r'
  }

  predicate IsDigit(c: char) { '0' <= c <= '9' }

  function Min(a: nat, b: nat): nat { if a <= b then a else b }

  function DigitValue(c: char): (d: nat)
    requires IsDigit(c)
    ensures d < 10
  {
    (c as int - '0' as int) as nat
  }

  function DigitChar(d: nat): (c: char)
    requires d < 10
    ensures IsDigit(c) && DigitValue(c) == d
  {
    ('0' as int + d) as char
  }

  /** The text a C function sees through a `char*`: everything before the first NUL. */
  function CString(s: string): (r: string)
    ensures |r| <= |s| && r == s[..|r|]
    ensures '\0' !in r
    ensures |r| < |s| ==> s[|r|] == '\0'
  {
    if |s| == 0 || s[0] == '\0' then "" else [s[0]] + CString(s[1..])
  }

  /** Text without NUL is its own C string. */
  lemma {:induction false} NoNulCString(s: string)
    requires '\0' !in s
    ensures CString(s) == s
    decreases |s|
  {
    if s != [] {
      assert '\0' !in s[1..];
      NoNulCString(s[1..]);
    }
  }

  // ---------------------------------------------------------------------------
  // Searching

  /** strchr / std::string::find for one character: the first position of `c`. */
  function FindChar(s: string, c: char): (r: Option<nat>)
    ensures r.Some? ==> r.value < |s| && s[r.value] == c && c !in s[..r.value]
    ensures r.None? <==> c !in s
  {
    if |s| == 0 then None
    else if s[0] == c then Some(0)
    else match FindChar(s[1..], c)
      case None => None
      case Some(i) => assert s[..i + 1] == [s[0]] + s[1..][..i]; Some(i + 1)
  }

  /** strchr(a + [c] + b, c) finds the `c` after `a` when `a` has none,
      and the text splits there. */
  lemma FindCharAt(a: string, c: char, b: string)
    requires c !in a
    ensures FindChar(a + [c] + b, c) == Some(|a|)
    ensures FindChar(a + ([c] + b), c) == Some(|a|)
    ensures (a + ([c] + b))[..|a|] == a && (a + ([c] + b))[|a| + 1..] == b
    ensures (a + ([c] + b))[..|a| + 1] == a + [c]
  {
    var s := a + [c] + b;
    assert s == a + ([c] + b);
    assert forall j :: 0 <= j < |a| ==> s[j] == a[j];
    FindCharFirst(s, c, |a|);
  }

  /** strchr finds the first occurrence. */
  lemma {:induction false} FindCharFirst(s: string, c: char, p: nat)
    requires p < |s| && s[p] == c
    requires forall j :: 0 <= j < p ==> s[j] != c
    ensures FindChar(s, c) == Some(p)
    decreases p
  {
    if p > 0 {
      FindCharFirst(s[1..], c, p - 1);
    }
  }

  /** std::string::rfind for one character: the last position of `c`. */
  function RFindChar(s: string, c: char): (r: Option<nat>)
    ensures r.Some? ==> r.value < |s| && s[r.value] == c && c !in s[r.value + 1..]
    ensures r.None? <==> c !in s
  {
    if |s| == 0 then None
    else if s[|s| - 1] == c then Some(|s| - 1)
    else
      var r := RFindChar(s[..|s| - 1], c);
      assert r.None? ==> s == s[..|s| - 1] + [s[|s| - 1]];
      assert r.Some? ==> s[r.value + 1..] == s[..|s| - 1][r.value + 1..] + [s[|s| - 1]];
      r
  }

  /** `pat` occurs in `s` starting at position `i`. */
  predicate OccursAt(s: string, pat: string, i: nat) {
    i + |pat| <= |s| && s[i..i + |pat|] == pat
  }

  /** strstr / std::string::find for a substring, searching from `from`. */
  function FindFrom(s: string, pat: string, from: nat): (r: Option<nat>)
    ensures r.Some? ==> from <= r.value && OccursAt(s, pat, r.value)
    ensures r.Some? ==> forall j :: from <= j < r.value ==> !OccursAt(s, pat, j)
    ensures r.None? ==> forall j :: from <= j ==> !OccursAt(s, pat, j)
    decreases |s| - from
  {
    if from + |pat| > |s| then None
    else if s[from..from + |pat|] == pat then Some(from)
    else FindFrom(s, pat, from + 1)
  }

  function Find(s: string, pat: string): (r: Option<nat>)
    ensures r.Some? ==> OccursAt(s, pat, r.value)
    ensures r.Some? ==> forall j: nat :: j < r.value ==> !OccursAt(s, pat, j)
    ensures r.None? ==> forall j: nat :: !OccursAt(s, pat, j)
  {
    FindFrom(s, pat, 0)
  }

  /** A search that succeeds within a prefix finds the same position in the
      whole text. */
  lemma FindOfPrefix(a: string, b: string, pat: string)
    requires Find(a, pat).Some?
    ensures Find(a + b, pat) == Find(a, pat)
  {
    var i := Find(a, pat).value;
    assert (a + b)[i..i + |pat|] == a[i..i + |pat|];
    assert OccursAt(a + b, pat, i);
    var r := Find(a + b, pat);
    assert r.Some?;
    if r.value < i {
      assert (a + b)[r.value..r.value + |pat|] == a[r.value..r.value + |pat|];
      assert OccursAt(a, pat, r.value);
      assert false;
    }
  }

  /** zettalib `contains`: `sub` occurs somewhere in `s`. */
  predicate Contains(s: string, sub: string) {
    Find(s, sub).Some?
  }

  predicate IsPrefix(p: string, s: string) {
    |p| <= |s| && s[..|p|] == p
  }

  // ---------------------------------------------------------------------------
  // Decimal text

  predicate AllDigits(s: string) {
    forall i :: 0 <= i < |s| ==> IsDigit(s[i])
  }

  /** The number of leading decimal digits of `s`. */
  function DigitRun(s: string): (n: nat)
    ensures n <= |s| && AllDigits(s[..n])
    ensures n < |s| ==> !IsDigit(s[n])
  {
    if |s| == 0 || !IsDigit(s[0]) then 0
    else
      var n := DigitRun(s[1..]);
      assert s[..n + 1] == [s[0]] + s[1..][..n];
      n + 1
  }

  /** The value of a digit string, most significant digit first. */
  function DigitsValue(s: string): nat
    requires AllDigits(s)
  {
    if |s| == 0 then 0 else DigitsValue(s[..|s| - 1]) * 10 + DigitValue(s[|s| - 1])
  }

  /** The shortest decimal rendering of `n` (std::to_string, "%lu"). */
  function NatToString(n: nat): (s: string)
    ensures |s| > 0 && AllDigits(s)
    ensures |s| > 1 ==> s[0] != '0'
    decreases n
  {
    if n < 10 then [DigitChar(n)] else NatToString(n / 10) + [DigitChar(n % 10)]
  }

  /** A value below 10^d has at most d digits. */
  lemma {:induction false} NatToStringLength(n: nat, d: nat)
    requires 0 < d && n < Pow10(d)
    ensures |NatToString(n)| <= d
    decreases d
  {
    if n >= 10 {
      assert d >= 2 by {
        assert Pow10(1) == 10 && (d == 1 ==> n < 10);
      }
      assert n / 10 < Pow10(d - 1);
      NatToStringLength(n / 10, d - 1);
    }
  }

  /** 10^20 exceeds every unsigned long. */
  lemma Pow10Of20()
    ensures Pow10(20) > ULONG_MAX
  {
    assert Pow10(5) == 100000;
    assert Pow10(10) == 100000 * Pow10(5) by {
      assert Pow10(10) == 10 * 10 * 10 * 10 * 10 * Pow10(5);
    }
    assert Pow10(15) == 100000 * Pow10(10) by {
      assert Pow10(15) == 10 * 10 * 10 * 10 * 10 * Pow10(10);
    }
    assert Pow10(20) == 100000 * Pow10(15) by {
      assert Pow10(20) == 10 * 10 * 10 * 10 * 10 * Pow10(15);
    }
  }

  function Pow10(d: nat): (p: nat)
    ensures p >= 1
  {
    if d == 0 then 1 else 10 * Pow10(d - 1)
  }

  /** std::to_string for a signed value. */
  function IntToString(i: int): (s: string)
    ensures |s| > 0
    ensures i < 0 <==> s[0] == '-'
  {
    if i < 0 then "-" + NatToString(-i) else NatToString(i)
  }

  lemma {:induction false} DigitsValueOfNatToString(n: nat)
    ensures DigitsValue(NatToString(n)) == n
    decreases n
  {
    if n >= 10 {
      var s := NatToString(n);
      DigitsValueOfNatToString(n / 10);
      assert s[..|s| - 1] == NatToString(n / 10);
    }
  }

  /** Leading white space that atoi/strtoul skip. */
  function SkipSpaces(s: string): (r: string)
    ensures |r| <= |s| && r == s[|s| - |r|..]
    ensures |r| > 0 ==> !IsSpace(r[0])
  {
    if |s| > 0 && IsSpace(s[0]) then SkipSpaces(s[1..]) else s
  }

  /** The value of the leading digit run of `t`. */
  function ParseDigits(t: string): nat {
    DigitsValue(t[..DigitRun(t)])
  }

  /** atoi / atol / strtoul in base 10: optional white space, an optional
      sign, then the longest digit run; no digits gives 0. Overflow is not
      modelled (the value is unbounded). */
  function Atoi(s: string): int {
    var t := SkipSpaces(s);
    if |t| > 0 && t[0] == '-' then -(ParseDigits(t[1..]) as int)
    else if |t| > 0 && t[0] == '+' then ParseDigits(t[1..])
    else ParseDigits(t)
  }

  const ULONG_MAX: nat := 0xFFFF_FFFF_FFFF_FFFF

  /** strtoul(s, &end, 10): the value and the index `end` is left at. White
      space and one sign are skipped; without a digit nothing is consumed
      (`end` is 0) and the value is 0; a magnitude above ULONG_MAX gives
      ULONG_MAX; a '-' negates modulo 2^64. */
  function StrToUL(s: string): (r: (nat, nat))
    ensures r.0 <= ULONG_MAX && r.1 <= |s|
    ensures r.1 == 0 ==> r.0 == 0
    ensures r.1 > 0 ==> IsDigit(s[r.1 - 1]) && (r.1 < |s| ==> !IsDigit(s[r.1]))
  {
    var t := SkipSpaces(s);
    var k := |s| - |t|;
    var sg := if |t| > 0 && (t[0] == '-' || t[0] == '+') then 1 else 0;
    var u := t[sg..];
    var n := DigitRun(u);
    if n == 0 then (0, 0)
    else
      var v := DigitsValue(u[..n]);
      assert s[k + sg..] == u;
      assert u[n - 1] == u[..n][n - 1];
      assert n < |u| ==> s[k + sg + n] == u[n];
      var value := if v > ULONG_MAX then ULONG_MAX
        else if t[0] == '-' then (0x1_0000_0000_0000_0000 - v) % 0x1_0000_0000_0000_0000
        else v;
      (value, k + sg + n)
  }

  /** strtoul reads back a digit string that fits, stopping right after it. */
  lemma StrToULOfDigits(d: string, rest: string)
    requires |d| > 0 && AllDigits(d) && DigitsValue(d) <= ULONG_MAX
    requires |rest| > 0 ==> !IsDigit(rest[0])
    ensures StrToUL(d + rest) == (DigitsValue(d), |d|)
  {
    var t := d + rest;
    assert t[0] == d[0];
    NoSpacesToSkip(t);
    assert t[0..] == t;
    DigitRunOfDigitsThen(d, rest);
  }

  lemma DigitRunOfDigitsThen(d: string, rest: string)
    requires AllDigits(d)
    requires |rest| > 0 ==> !IsDigit(rest[0])
    ensures DigitRun(d + rest) == |d|
    ensures (d + rest)[..|d|] == d
  {
    if |d| > 0 {
      assert (d + rest)[1..] == d[1..] + rest;
      DigitRunOfDigitsThen(d[1..], rest);
    } else {
      assert d + rest == rest;
    }
  }

  lemma ParseDigitsOfDigitsThen(d: string, rest: string)
    requires AllDigits(d)
    requires |rest| > 0 ==> !IsDigit(rest[0])
    ensures ParseDigits(d + rest) == DigitsValue(d)
  {
    DigitRunOfDigitsThen(d, rest);
  }

  lemma {:induction false} NoSpacesToSkip(t: string)
    requires |t| > 0 && (IsDigit(t[0]) || t[0] == '-')
    ensures SkipSpaces(t) == t
  {
    assert !IsSpace(t[0]);
  }

  lemma AtoiOfDigits(d: string, rest: string)
    requires |d| > 0 && AllDigits(d)
    requires |rest| > 0 ==> !IsDigit(rest[0])
    ensures Atoi(d + rest) == DigitsValue(d)
  {
    var t := d + rest;
    assert t[0] == d[0];
    NoSpacesToSkip(t);
    ParseDigitsOfDigitsThen(d, rest);
  }

  lemma AtoiOfNegDigits(d: string, rest: string)
    requires |d| > 0 && AllDigits(d)
    requires |rest| > 0 ==> !IsDigit(rest[0])
    ensures Atoi("-" + d + rest) == -(DigitsValue(d) as int)
  {
    var t := "-" + d + rest;
    assert t[0] == '-';
    NoSpacesToSkip(t);
    assert t[1..] == d + rest;
    ParseDigitsOfDigitsThen(d, rest);
  }

  /** atoi reads back what std::to_string wrote, whatever non-digit text follows. */
  lemma AtoiOfIntToString(i: int, rest: string)
    requires |rest| > 0 ==> !IsDigit(rest[0])
    ensures Atoi(IntToString(i) + rest) == i
  {
    if i < 0 {
      DigitsValueOfNatToString(-i);
      AtoiOfNegDigits(NatToString(-i), rest);
    } else {
      DigitsValueOfNatToString(i);
      AtoiOfDigits(NatToString(i), rest);
    }
  }

  // ---------------------------------------------------------------------------
  // Splitting, joining, trimming

  /** The pieces `Tokenize` would produce, carrying the token being built. */
  function TokenizeFrom(s: string, delims: set<char>, cur: string): (r: seq<string>)
    ensures forall k :: 0 <= k < |r| ==> |r[k]| > 0
    decreases |s|
  {
    if |s| == 0 then (if cur == "" then [] else [cur])
    else if s[0] in delims then
      (if cur == "" then [] else [cur]) + TokenizeFrom(s[1..], delims, "")
    else TokenizeFrom(s[1..], delims, cur + [s[0]])
  }

  /** zettalib StringTokenize: split at every character of `delims`,
      dropping empty pieces. */
  function Tokenize(s: string, delims: set<char>): (r: seq<string>)
    ensures forall k :: 0 <= k < |r| ==> |r[k]| > 0
  {
    TokenizeFrom(s, delims, "")
  }

  /** The strings one after another. */
  function Concat(lines: seq<string>): string
    decreases |lines|
  {
    if lines == [] then "" else lines[0] + Concat(lines[1..])
  }

  /** `parts` joined with `sep` between neighbours. */
  function Join(parts: seq<string>, sep: string): (r: string)
    ensures |parts| == 0 ==> r == ""
    ensures |parts| == 1 ==> r == parts[0]
  {
    if |parts| == 0 then ""
    else if |parts| == 1 then parts[0]
    else parts[0] + sep + Join(parts[1..], sep)
  }

  predicate NoneOf(s: string, cs: set<char>) {
    forall i :: 0 <= i < |s| ==> s[i] !in cs
  }

  lemma {:induction false} TokenizeFromNoDelim(s: string, delims: set<char>, cur: string, rest: seq<string>)
    requires NoneOf(s, delims)
    ensures TokenizeFrom(s, delims, cur) == (if cur + s == "" then [] else [cur + s])
    decreases |s|
  {
    if |s| > 0 {
      TokenizeFromNoDelim(s[1..], delims, cur + [s[0]], rest);
      assert cur + [s[0]] + s[1..] == cur + s;
    } else {
      assert cur + s == cur;
    }
  }

  lemma {:induction false} TokenizeFromAppend(a: string, b: string, delims: set<char>, cur: string)
    requires NoneOf(a, delims)
    ensures TokenizeFrom(a + b, delims, cur) == TokenizeFrom(b, delims, cur + a)
    decreases |a|
  {
    if |a| > 0 {
      assert (a + b)[0] == a[0];
      assert (a + b)[1..] == a[1..] + b;
      TokenizeFromAppend(a[1..], b, delims, cur + [a[0]]);
      assert cur + [a[0]] + a[1..] == cur + a;
    } else {
      assert a + b == b;
      assert cur + a == cur;
    }
  }

  /** StringTokenize inverts Join when no piece is empty or holds a delimiter. */
  lemma {:induction false} TokenizeJoin(parts: seq<string>, c: char, delims: set<char>)
    requires c in delims
    requires forall k :: 0 <= k < |parts| ==> |parts[k]| > 0 && NoneOf(parts[k], delims)
    ensures Tokenize(Join(parts, [c]), delims) == parts
  {
    if |parts| == 1 {
      TokenizeFromNoDelim(parts[0], delims, "", []);
      assert "" + parts[0] == parts[0];
    } else if |parts| > 1 {
      var tail := Join(parts[1..], [c]);
      assert Join(parts, [c]) == parts[0] + ([c] + tail);
      TokenizeFromAppend(parts[0], [c] + tail, delims, "");
      assert "" + parts[0] == parts[0];
      assert ([c] + tail)[1..] == tail;
      TokenizeJoin(parts[1..], c, delims);
      assert parts == [parts[0]] + parts[1..];
    }
  }

  /** Drops leading characters of `cs`. */
  function TrimLeft(s: string, cs: set<char>): (r: string)
    ensures |r| <= |s| && r == s[|s| - |r|..]
    ensures forall i :: 0 <= i < |s| - |r| ==> s[i] in cs
    ensures |r| > 0 ==> r[0] !in cs
  {
    s[LeadingRun(s, cs)..]
  }

  /** The length of the run of characters of `cs` that `s` starts with. */
  function LeadingRun(s: string, cs: set<char>): (k: nat)
    ensures k <= |s| && (k < |s| ==> s[k] !in cs)
    ensures forall i :: 0 <= i < k ==> s[i] in cs
  {
    if |s| > 0 && s[0] in cs then
      var k := LeadingRun(s[1..], cs);
      assert forall i :: 1 <= i < k + 1 ==> s[i] == s[1..][i - 1];
      k + 1
    else 0
  }

  /** Drops trailing characters of `cs`. */
  function TrimRight(s: string, cs: set<char>): (r: string)
    ensures |r| <= |s| && r == s[..|r|]
    ensures forall i :: |r| <= i < |s| ==> s[i] in cs
    ensures |r| > 0 ==> r[|r| - 1] !in cs
  {
    if |s| > 0 && s[|s| - 1] in cs then TrimRight(s[..|s| - 1], cs) else s
  }

  /** Trim with a character set: the longest middle part of `s` that neither
      starts nor ends with a character of `cs`. */
  function Trim(s: string, cs: set<char>): (r: string)
    ensures exists i: nat :: OccursAt(s, r, i)
    ensures |r| > 0 ==> r[0] !in cs && r[|r| - 1] !in cs
    ensures r == "" <==> (forall i :: 0 <= i < |s| ==> s[i] in cs)
  {
    var l := TrimLeft(s, cs);
    var r := TrimRight(l, cs);
    TrimParts(s, cs, |s| - |l|, l, r);
    r
  }

  /** Where the two halves of Trim leave the middle part, from what each half
      guarantees: `l` is `s` past a run of `k` characters of `cs`, and `r` is
      `l` short of a trailing run of them. */
  lemma TrimParts(s: string, cs: set<char>, k: nat, l: string, r: string)
    requires k + |l| == |s| && l == s[k..]
    requires forall i :: 0 <= i < k ==> s[i] in cs
    requires |l| > 0 ==> l[0] !in cs
    requires |r| <= |l| && r == l[..|r|]
    requires forall i :: |r| <= i < |l| ==> l[i] in cs
    requires |r| > 0 ==> r[|r| - 1] !in cs
    ensures OccursAt(s, r, k)
    ensures |r| > 0 ==> r[0] !in cs && r[|r| - 1] !in cs
    ensures r == "" <==> (forall i :: 0 <= i < |s| ==> s[i] in cs)
  {
    assert s[k..k + |r|] == l[..|r|];
    if |r| > 0 {
      assert r[0] == l[0];
    } else {
      TrimAllRemoved(s, cs, k, l);
    }
  }

  lemma TrimAllRemoved(s: string, cs: set<char>, k: nat, l: string)
    requires k <= |s| && s[k..] == l
    requires forall i :: 0 <= i < k ==> s[i] in cs
    requires forall i :: 0 <= i < |l| ==> l[i] in cs
    ensures forall i :: 0 <= i < |s| ==> s[i] in cs
  {
    forall i | k <= i < |s| ensures s[i] in cs {
      assert s[i] == l[i - k];
    }
  }

  /** The std::string::rfind + substr idiom: `(s.substr(0, p), s.substr(p + 1))`
      with `p` the last position of `c`. When `c` is absent `p` is npos, so the
      first part is the whole string and, as npos + 1 wraps to 0, so is the second. */
  function SplitAtLast(s: string, c: char): (r: (string, string))
    ensures c in s ==> r.0 + [c] + r.1 == s && c !in r.1
    ensures c !in s ==> r.0 == s && r.1 == s
  {
    match RFindChar(s, c)
    case None => (s, s)
    case Some(i) => assert s == s[..i] + [c] + s[i + 1..]; (s[..i], s[i + 1..])
  }

  /** Splitting `x c y` at its last `c` gives back `x` and `y` when `y`
      holds no `c`, whatever `x` holds. */
  lemma SplitAtLastOfJoin(x: string, c: char, y: string)
    requires c !in y
    ensures SplitAtLast(x + [c] + y, c) == (x, y)
  {
    var s := x + [c] + y;
    assert s[|x|] == c;
    var (a, b) := SplitAtLast(s, c);
    assert s[|a|] == c;
    assert |b| == |y|;
    assert b == s[|s| - |b|..] == y;
    assert a == s[..|a|] == x;
  }

  /** zettalib StringReplace: every occurrence of `from`, left to right and
      without overlap, replaced by `to`. */
  function ReplaceAll(s: string, from: string, to: string): (r: string)
    requires |from| > 0
    ensures (forall j :: !OccursAt(s, from, j)) ==> r == s
    decreases |s|
  {
    match Find(s, from)
    case None => s
    case Some(i) => s[..i] + to + ReplaceAll(s[i + |from|..], from, to)
  }
}
