/** The search for secret-bearing or raw-evidence keys in JSON metadata. */
module ForbiddenKeys {
  import opened Options
  import opened Sequences
  import opened Strings
  import opened JsonTree

  const SECRET_RESPONSE_FIELDS: set<string> := {"api_key", "secret_ref", "encrypted_key", "credential_secret_ref"}

  const SECRET_KEYS: set<string> := SECRET_RESPONSE_FIELDS + {
    "authorization", "cookie", "access_token", "refresh_token", "id_token", "password", "private_key"
  }

  const TRACE_UNSAFE_KEYS: set<string> := SECRET_KEYS + {
    "rendered_context", "context_text", "private_memory_text", "raw_private_memory", "raw_memory_text",
    "full_patch", "patch", "diff", "file_content", "raw_file_content", "stdout", "stderr"
  }

  // ----------------------------------------------------------------------- the search

  function FindForbiddenKey(value: Json, forbidden: set<string>, path: seq<string>): Option<seq<string>>
    decreases value, Size(value) + 1
  {
    match value
    case Array(_) => FindInItems(value, forbidden, path, 0)
    case Object(_) => FindInEntries(value, forbidden, path, 0)
    case _ => None
  }

  function FindInItems(value: Json, forbidden: set<string>, path: seq<string>, i: nat): Option<seq<string>>
    requires value.Array? && i <= |value.items|
    decreases value, Size(value) - i
  {
    if i == |value.items| then None
    else
      var found := FindForbiddenKey(value.items[i], forbidden, path + [Decimal(i)]);
      if found.Some? then found else FindInItems(value, forbidden, path, i + 1)
  }

  function FindInEntries(value: Json, forbidden: set<string>, path: seq<string>, i: nat): Option<seq<string>>
    requires value.Object? && i <= |value.entries|
    decreases value, Size(value) - i
  {
    if i == |value.entries| then None
    else
      var normalized := Lower(value.entries[i].key);
      var childPath := path + [value.entries[i].key];
      if normalized in forbidden then Some(childPath)
      else
        var found := FindForbiddenKey(value.entries[i].value, forbidden, childPath);
        if found.Some? then found else FindInEntries(value, forbidden, path, i + 1)
  }

  // ------------------------------------------------------------- what a finding means

  function IsForbidden(forbidden: set<string>): string -> bool {
    (key: string) => Lower(key) in forbidden
  }

  function NoNode(): (Json, nat) -> bool {
    (_, _) => false
  }

  /** `pos` leads to an object entry whose key is forbidden, in whatever case it is written. */
  ghost predicate ForbiddenAt(value: Json, pos: seq<nat>, forbidden: set<string>) {
    && pos != [] && Reaches(value, pos[..|pos| - 1])
    && var parent := NodeAt(value, pos[..|pos| - 1]);
       parent.Object? && pos[|pos| - 1] < |parent.entries| && Lower(parent.entries[pos[|pos| - 1]].key) in forbidden
  }

  /** The search is the generic one: the path it returns spells out the position of the first fault. */
  ghost predicate Agrees(value: Json, path: seq<string>, found: Option<seq<string>>, first: Option<Fault>) {
    match first
    case None => found.None?
    case Some(f) => Reaches(value, f.pos) && f.atKey && found == Some(path + Labels(value, f.pos))
  }

  lemma LabelsDown(value: Json, i: nat, pos: seq<nat>, path: seq<string>)
    requires i < Size(value) && Reaches(Child(value, i), pos)
    ensures Reaches(value, [i] + pos)
    ensures path + [Label(value, i)] + Labels(Child(value, i), pos) == path + Labels(value, [i] + pos)
  {
    assert ([i] + pos)[1..] == pos;
  }

  lemma {:induction false} FindIsFirst(value: Json, forbidden: set<string>, path: seq<string>, depth: nat)
    ensures Agrees(value, path, FindForbiddenKey(value, forbidden, path),
                   First(value, depth, IsForbidden(forbidden), NoNode()))
    decreases value, Size(value) + 1
  {
    match value
    case Array(_) => FindFromIsFirst(value, forbidden, path, 0, depth);
    case Object(_) => FindFromIsFirst(value, forbidden, path, 0, depth);
    case _ =>
  }

  lemma {:induction false} FindFromIsFirst(value: Json, forbidden: set<string>, path: seq<string>, i: nat, depth: nat)
    requires (value.Array? || value.Object?) && i <= Size(value)
    ensures Agrees(value, path,
                   if value.Array? then FindInItems(value, forbidden, path, i)
                   else FindInEntries(value, forbidden, path, i),
                   FirstFrom(value, depth, i, IsForbidden(forbidden), NoNode()))
    decreases value, Size(value) - i
  {
    if i < Size(value) {
      var childPath := path + [Label(value, i)];
      FindIsFirst(Child(value, i), forbidden, childPath, depth + 1);
      FindFromIsFirst(value, forbidden, path, i + 1, depth);
      LabelsDown(value, i, [], path);
      assert [i] + [] == [i] && childPath + [] == childPath;
      match First(Child(value, i), depth + 1, IsForbidden(forbidden), NoNode())
      case Some(f) => LabelsDown(value, i, f.pos, path);
      case None =>
    }
  }

  /** The search returns nothing exactly when no key anywhere in the tree lower-cases into the
      forbidden set. Otherwise the path it returns leads to such a key, and every other one comes
      later in document order. */
  lemma FindForbiddenKeyExact(value: Json, forbidden: set<string>)
    ensures FindForbiddenKey(value, forbidden, []).None? <==> forall pos :: !ForbiddenAt(value, pos, forbidden)
    ensures FindForbiddenKey(value, forbidden, []).Some? ==>
              exists pos :: && ForbiddenAt(value, pos, forbidden) && Reaches(value, pos)
                            && FindForbiddenKey(value, forbidden, []).value == Labels(value, pos)
                            && forall other | ForbiddenAt(value, other, forbidden) :: other == pos || Before(pos, other)
  {
    var badKey, badNode := IsForbidden(forbidden), NoNode();
    FindIsFirst(value, forbidden, [], 0);
    FirstExact(value, 0, badKey, badNode);
    FaultsAreForbidden(value, forbidden);
    match First(value, 0, badKey, badNode)
    case None =>
      forall pos ensures !ForbiddenAt(value, pos, forbidden) {
        assert !IsFault(value, 0, Fault(pos, true), badKey, badNode);
      }
    case Some(f) =>
      assert ForbiddenAt(value, f.pos, forbidden);
      assert [] + Labels(value, f.pos) == Labels(value, f.pos);
      forall other | ForbiddenAt(value, other, forbidden) ensures other == f.pos || Before(f.pos, other) {
        assert IsFault(value, 0, Fault(other, true), badKey, badNode);
      }
  }

  lemma FaultsAreForbidden(value: Json, forbidden: set<string>)
    ensures forall f :: IsFault(value, 0, f, IsForbidden(forbidden), NoNode())
                   <==> f.atKey && ForbiddenAt(value, f.pos, forbidden)
  {
    forall f
      ensures IsFault(value, 0, f, IsForbidden(forbidden), NoNode())
         <==> f.atKey && ForbiddenAt(value, f.pos, forbidden)
    {
      FaultMeaning(value, 0, f, IsForbidden(forbidden), NoNode());
    }
  }

  /** Forbidding more keys can only reject more values. */
  lemma ForbiddingMoreRejectsMore(value: Json, fewer: set<string>, more: set<string>)
    requires fewer <= more && FindForbiddenKey(value, more, []).None?
    ensures FindForbiddenKey(value, fewer, []).None?
  {
    FindForbiddenKeyExact(value, fewer);
    FindForbiddenKeyExact(value, more);
    forall pos ensures !ForbiddenAt(value, pos, fewer) {
      assert !ForbiddenAt(value, pos, more);
    }
  }

  /** Every TraceSafe value is also SecretFree. */
  lemma TraceSafeIsSecretFree(value: Json)
    requires FindForbiddenKey(value, TRACE_UNSAFE_KEYS, []).None?
    ensures FindForbiddenKey(value, SECRET_KEYS, []).None?
  {
    ForbiddingMoreRejectsMore(value, SECRET_KEYS, TRACE_UNSAFE_KEYS);
  }

  ghost predicate NoCapitals(e: string) {
    forall k | 0 <= k < |e| :: !('A' <= e[k] <= 'Z')
  }

  lemma SecretEntries(e: string)
    requires e in SECRET_KEYS
    ensures NoCapitals(e)
  {}

  lemma ShortTraceEntries(e: string)
    requires e in TRACE_UNSAFE_KEYS && e !in SECRET_KEYS && |e| < 13
    ensures NoCapitals(e)
  {}

  lemma LongTraceEntries(e: string)
    requires e in TRACE_UNSAFE_KEYS && e !in SECRET_KEYS && |e| >= 13
    ensures NoCapitals(e)
  {}

  /** No entry of the sets is out of reach of the comparison with a lower-cased key: every one is
      in lower case already, and a key spelled like it in any case is rejected, with that spelling
      in the path. */
  lemma NoDeadEntries(e: string, key: string, child: Json)
    requires e in TRACE_UNSAFE_KEYS
    ensures Lower(e) == e
    ensures Lower(key) == e ==>
              FindForbiddenKey(Object([Entry(key, child)]), TRACE_UNSAFE_KEYS, []) == Some([key])
    ensures FindForbiddenKey(Object([Entry(e, child)]), TRACE_UNSAFE_KEYS, []) == Some([e])
  {
    if e in SECRET_KEYS {
      SecretEntries(e);
    } else if |e| < 13 {
      ShortTraceEntries(e);
    } else {
      LongTraceEntries(e);
    }
    assert Lower(e) == e;
    assert [] + [key] == [key] && [] + [e] == [e];
  }

  /** `key` is `e` with some of its small letters written as capitals. */
  ghost predicate SpelledLike(key: string, e: string) {
    |key| == |e| && forall k | 0 <= k < |e| ::
      key[k] == e[k] || exists n :: 0 <= n < 26 && key[k] == CAPITALS[n] && e[k] == SMALL[n]
  }

  /** A forbidden key is found in every spelling. */
  lemma EverySpellingIsFound(e: string, key: string, child: Json)
    requires e in TRACE_UNSAFE_KEYS && SpelledLike(key, e)
    ensures FindForbiddenKey(Object([Entry(key, child)]), TRACE_UNSAFE_KEYS, []) == Some([key])
    ensures e in SECRET_KEYS ==> FindForbiddenKey(Object([Entry(key, child)]), SECRET_KEYS, []) == Some([key])
  {
    NoDeadEntries(e, key, child);
    forall k | 0 <= k < |e| ensures Lower(key)[k] == e[k] {
      LowerExact(key, k);
      LowerExact(e, k);
      assert Lower(e)[k] == e[k];
    }
    assert Lower(key) == e;
    assert [] + [key] == [key];
  }

  /** How a path is spelled: keys as they are written, list positions as numerals. */
  lemma PathsAsWritten()
    ensures var value := Object([Entry("a", Array([Null, Object([Entry("Password", Null)])]))]);
            FindForbiddenKey(value, SECRET_KEYS, []) == Some(["a", "1", "Password"])
  {
    var inner := Object([Entry("Password", Null)]);
    var list := Array([Null, inner]);
    var value := Object([Entry("a", list)]);
    assert Lower("Password") == "password";
    assert Lower("a") == "a" && "a" !in SECRET_KEYS by {
      assert |"a"| == 1;
    }
    assert Decimal(1) == "1" && Decimal(0) == "0";
    var path := ["a", "1"];
    assert FindInEntries(inner, SECRET_KEYS, path, 0) == Some(path + ["Password"]);
    assert ["a"] + ["1"] == path;
    assert FindInItems(list, SECRET_KEYS, ["a"], 1) == Some(path + ["Password"]);
    assert FindForbiddenKey(Null, SECRET_KEYS, ["a"] + ["0"]) == None;
    assert FindInItems(list, SECRET_KEYS, ["a"], 0) == Some(path + ["Password"]);
    assert [] + ["a"] == ["a"];
    assert FindInEntries(value, SECRET_KEYS, [], 0) == Some(path + ["Password"]);
    assert path + ["Password"] == ["a", "1", "Password"];
  }
}
