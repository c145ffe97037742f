/** The debug-keyword list of debug builds (g_debug_keys): the node_debug
    request adds or deletes comma-separated keywords, and _nm_keyword,
    behind NM_DEBUG_EXECUTE_IF, asks whether a stored keyword starts the
    queried one. */
module NodeDebug {
  import opened CStr
  import opened JsonTree

  predicate NoDup(keys: seq<string>) {
    forall i, j :: 0 <= i < j < |keys| ==> keys[i] != keys[j]
  }

  /** The "add" loop: each keyword is appended unless the list already
      holds it. */
  function AddKeys(keys: seq<string>, toks: seq<string>): (r: seq<string>)
    ensures |keys| <= |r| && r[..|keys|] == keys
    ensures forall x :: x in r <==> x in keys || x in toks
    ensures NoDup(keys) ==> NoDup(r)
    decreases |toks|
  {
    if toks == [] then keys
    else
      var next := if toks[0] in keys then keys else keys + [toks[0]];
      assert forall x :: x in toks <==> x == toks[0] || x in toks[1..];
      var r := AddKeys(next, toks[1..]);
      assert r[..|keys|] == next[..|next|][..|keys|];
      r
  }

  /** The inner "del" loop: every element equal to `tok` is erased. */
  function EraseAll(keys: seq<string>, tok: string): (r: seq<string>)
    ensures forall x :: x in r <==> x in keys && x != tok
    ensures |r| <= |keys|
    decreases |keys|
  {
    if keys == [] then []
    else
      assert forall x :: x in keys <==> x == keys[0] || x in keys[1..];
      (if keys[0] == tok then [] else [keys[0]]) + EraseAll(keys[1..], tok)
  }

  /** The "del" loop: one erasing pass per keyword. */
  function DelKeys(keys: seq<string>, toks: seq<string>): (r: seq<string>)
    ensures forall x :: x in r <==> x in keys && x !in toks
    decreases |toks|
  {
    if toks == [] then keys
    else
      assert forall x :: x in toks <==> x == toks[0] || x in toks[1..];
      DelKeys(EraseAll(keys, toks[0]), toks[1..])
  }

  /** The independent description of "del": the list, in order, without
      the elements the request names. */
  function Unlisted(keys: seq<string>, toks: seq<string>): (r: seq<string>)
    decreases |keys|
  {
    if keys == [] then [] else (if keys[0] in toks then [] else [keys[0]]) + Unlisted(keys[1..], toks)
  }

  lemma {:induction false} UnlistedErase(keys: seq<string>, tok: string, toks: seq<string>)
    ensures Unlisted(EraseAll(keys, tok), toks) == Unlisted(keys, [tok] + toks)
    decreases |keys|
  {
    if keys != [] {
      UnlistedErase(keys[1..], tok, toks);
      var head := if keys[0] == tok then [] else [keys[0]];
      UnlistedAppend(head, EraseAll(keys[1..], tok), toks);
    }
  }

  lemma {:induction false} UnlistedAppend(a: seq<string>, b: seq<string>, toks: seq<string>)
    ensures Unlisted(a + b, toks) == Unlisted(a, toks) + Unlisted(b, toks)
    decreases |a|
  {
    if a != [] {
      assert (a + b)[1..] == a[1..] + b;
      UnlistedAppend(a[1..], b, toks);
    } else {
      assert a + b == b;
    }
  }

  lemma {:induction false} UnlistedOfNone(keys: seq<string>)
    ensures Unlisted(keys, []) == keys
    decreases |keys|
  {
    if keys != [] {
      UnlistedOfNone(keys[1..]);
    }
  }

  /** Deleting keyword by keyword, as the request does, keeps exactly the
      stored keywords the request does not name, in their order. */
  lemma {:induction false} DelKeysIsUnlisted(keys: seq<string>, toks: seq<string>)
    ensures DelKeys(keys, toks) == Unlisted(keys, toks)
    decreases |toks|
  {
    if toks == [] {
      UnlistedOfNone(keys);
    } else {
      DelKeysIsUnlisted(EraseAll(keys, toks[0]), toks[1..]);
      UnlistedErase(keys, toks[0], toks[1..]);
      assert [toks[0]] + toks[1..] == toks;
    }
  }

  /** nodeDebug(root): with both "keyword" and "op_type" present, "add" and
      "del" apply the comma-separated keywords; any other request leaves the
      list as it is. It always answers true. */
  function NodeDebug(keys: seq<string>, root: Value): (r: (seq<string>, bool))
    ensures r.1
    ensures !(IsMember(root, "keyword") && IsMember(root, "op_type")) ==> r.0 == keys
    ensures IsMember(root, "keyword") && IsMember(root, "op_type") ==>
      var toks := Tokenize(AsString(Member(root, "keyword")), {','});
      var op := AsString(Member(root, "op_type"));
      (op == "add" ==> |keys| <= |r.0| && r.0[..|keys|] == keys && (forall x :: x in r.0 <==> x in keys || x in toks)) &&
      (op == "del" ==> r.0 == Unlisted(keys, toks)) &&
      (op != "add" && op != "del" ==> r.0 == keys)
    ensures NoDup(keys) ==> NoDup(r.0)
  {
    if IsMember(root, "keyword") && IsMember(root, "op_type") then
      var toks := Tokenize(AsString(Member(root, "keyword")), {','});
      var op := AsString(Member(root, "op_type"));
      if op == "add" then (AddKeys(keys, toks), true)
      else if op == "del" then
        DelKeysIsUnlisted(keys, toks);
        UnlistedNoDup(keys, toks);
        (DelKeys(keys, toks), true)
      else (keys, true)
    else (keys, true)
  }

  lemma {:induction false} UnlistedNoDup(keys: seq<string>, toks: seq<string>)
    ensures NoDup(keys) ==> NoDup(Unlisted(keys, toks))
    ensures forall x :: x in Unlisted(keys, toks) ==> x in keys
    decreases |keys|
  {
    if keys != [] {
      UnlistedNoDup(keys[1..], toks);
      if NoDup(keys) {
        assert forall i :: 0 <= i < |keys| - 1 ==> keys[1..][i] == keys[i + 1];
        assert NoDup(keys[1..]);
        assert keys[0] !in keys[1..];
      }
    }
  }

  /** Adding the same keywords twice is the same as adding them once. */
  lemma {:induction false} AddKeysIdempotent(keys: seq<string>, toks: seq<string>)
    ensures AddKeys(AddKeys(keys, toks), toks) == AddKeys(keys, toks)
  {
    AddKeysPresent(AddKeys(keys, toks), toks);
  }

  lemma {:induction false} AddKeysPresent(keys: seq<string>, toks: seq<string>)
    requires forall x :: x in toks ==> x in keys
    ensures AddKeys(keys, toks) == keys
    decreases |toks|
  {
    if toks != [] {
      AddKeysPresent(keys, toks[1..]);
    }
  }

  // ---------------------------------------------------------------------------
  // _nm_keyword

  /** The character strncmp reads at `i`: past the end of a C string it
      reads the terminating NUL. */
  function At(s: string, i: nat): char {
    if i < |s| then s[i] else '\0'
  }

  /** strncmp(a, b, n) == 0: the first `n` characters agree, where a common
      NUL ends the comparison early. */
  function StrNEqual(a: string, b: string, n: nat): bool
    decreases n
  {
    if n == 0 then true
    else if At(a, 0) != At(b, 0) then false
    else if At(a, 0) == '\0' then true
    else StrNEqual(a[1..], b[1..], n - 1)
  }

  /** _nm_keyword(keyword): 1 when some stored key passes
      strncmp(key, keyword, key.length()) == 0, else 0. */
  function NmKeyword(keys: seq<string>, keyword: string): (r: int)
    ensures r == 1 <==> exists i :: 0 <= i < |keys| && StrNEqual(keys[i], CString(keyword), |keys[i]|)
    ensures r == 0 || r == 1
    decreases |keys|
  {
    if keys == [] then 0
    else if StrNEqual(keys[0], CString(keyword), |keys[0]|) then 1
    else
      var r := NmKeyword(keys[1..], keyword);
      assert forall i :: 1 <= i < |keys| ==> keys[i] == keys[1..][i - 1];
      r
  }

  /** For a stored key without NUL the strncmp test is a prefix test: the
      key matches exactly the keywords it starts. */
  lemma {:induction false} StrNEqualIsPrefix(key: string, kw: string)
    requires '\0' !in key && '\0' !in kw
    ensures StrNEqual(key, kw, |key|) <==> IsPrefix(key, kw)
    decreases |key|
  {
    if key != [] {
      if |kw| > 0 && key[0] == kw[0] {
        assert '\0' !in key[1..] && '\0' !in kw[1..];
        StrNEqualIsPrefix(key[1..], kw[1..]);
        if |key| <= |kw| {
          assert kw[..|key|] == [kw[0]] + kw[1..][..|key| - 1];
        }
      }
    }
  }

  /** After "add" of a keyword without NUL, every query the keyword starts
      is switched on. */
  lemma AddedKeywordFires(keys: seq<string>, tok: string, query: string)
    requires '\0' !in tok && '\0' !in query && IsPrefix(tok, query)
    ensures NmKeyword(AddKeys(keys, [tok]), query) == 1
  {
    var r := AddKeys(keys, [tok]);
    assert tok in r;
    var i :| 0 <= i < |r| && r[i] == tok;
    StrNEqualIsPrefix(tok, query);
    NoNulCString(query);
  }
}
