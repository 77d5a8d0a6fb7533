/** Which words a configuration key is made of, and which of them name executable code. */
module KeyTokens {
  import opened Strings

  const UNSAFE_TOKENS: set<string> := {
    "script", "scripts", "shell", "command", "commands", "sql", "query_sql", "regex", "regexp", "pattern", "patterns",
    "provider_tool", "provider_tools", "tool", "tools", "executable"
  }

  // -------------------------------------------------------------------- the tokenizer

  predicate IsUpper(c: char) { 'A' <= c <= 'Z' }

  predicate IsLowerOrDigit(c: char) { 'a' <= c <= 'z' || IsDigit(c) }

  /** `replace(/([a-z0-9])([A-Z])/g, "$1_$2")`: each match consumes both of its characters. */
  function BreakCamelCase(s: string): string {
    if |s| >= 2 && IsLowerOrDigit(s[0]) && IsUpper(s[1]) then [s[0], '_', s[1]] + BreakCamelCase(s[2..])
    else if s != "" then [s[0]] + BreakCamelCase(s[1..])
    else ""
  }

  /** `split(/[^a-z0-9]+/).filter(Boolean)`, with `run` the piece being read. */
  function TokensFrom(s: string, run: string): seq<string> {
    if s == "" then Flush(run)
    else if IsLowerOrDigit(s[0]) then TokensFrom(s[1..], run + [s[0]])
    else Flush(run) + TokensFrom(s[1..], "")
  }

  function Flush(run: string): seq<string> {
    if run == "" then [] else [run]
  }

  function Tokens(key: string): seq<string> {
    TokensFrom(Lower(BreakCamelCase(Trim(key))), "")
  }

  predicate UnsafeKey(key: string) {
    exists token | token in Tokens(key) :: token in UNSAFE_TOKENS
  }

  // ----------------------------------------------------------- what the tokens are

  predicate IsWordChar(c: char) { IsUpper(c) || IsLowerOrDigit(c) }

  /** A lower-case letter or digit directly before a capital. */
  ghost predicate CamelBoundary(s: string, i: int) {
    0 < i < |s| && IsLowerOrDigit(s[i - 1]) && IsUpper(s[i])
  }

  /** No word runs across position `i`. */
  ghost predicate Edge(s: string, i: int) {
    i <= 0 || i >= |s| || !IsWordChar(s[i - 1]) || !IsWordChar(s[i]) || CamelBoundary(s, i)
  }

  /** `s[i..j]` is a word: letters and digits only, nothing to cut inside, and cut off at both ends. */
  ghost predicate Word(s: string, i: int, j: int) {
    && 0 <= i < j <= |s| && Edge(s, i) && Edge(s, j)
    && (forall k | i <= k < j :: IsWordChar(s[k]))
    && (forall k | i < k < j :: !CamelBoundary(s, k))
  }

  /** Reading the words of `s` from position `pos` on, the current one having begun at `start`. */
  ghost function WordsFrom(s: string, start: nat, pos: nat): seq<string>
    requires start <= pos <= |s|
    decreases |s| - pos
  {
    if pos == |s| then Flush(Lower(s[start..pos]))
    else if !IsWordChar(s[pos]) then Flush(Lower(s[start..pos])) + WordsFrom(s, pos + 1, pos + 1)
    else if start < pos && CamelBoundary(s, pos) then Flush(Lower(s[start..pos])) + WordsFrom(s, pos, pos + 1)
    else WordsFrom(s, start, pos + 1)
  }

  /** `s[start..pos]` is a run that began at an edge and has no edge inside. */
  ghost predicate Running(s: string, start: nat, pos: nat) {
    && start <= pos <= |s| && Edge(s, start)
    && (forall k | start <= k < pos :: IsWordChar(s[k]))
    && (forall k | start < k < pos :: !CamelBoundary(s, k))
  }

  /** Every camel-case boundary is marked, although matches of the pattern cannot overlap: the
      replacement is a break inserted at each boundary, one at a time. */
  lemma {:induction false} BreaksEverywhere(s: string)
    ensures BreakCamelCase(s) ==
            if |s| < 2 then s
            else [s[0]] + (if IsLowerOrDigit(s[0]) && IsUpper(s[1]) then "_" else "") + BreakCamelCase(s[1..])
    decreases |s|
  {
    if |s| >= 2 && IsLowerOrDigit(s[0]) && IsUpper(s[1]) {
      assert s[1..][1..] == s[2..];
      assert BreakCamelCase(s[1..]) == [s[1]] + BreakCamelCase(s[2..]);
    }
  }

  /** What `BreakCamelCase` has still to emit once it has dealt with `s[..pos]`. */
  ghost function Remaining(s: string, pos: nat): string
    requires pos <= |s|
  {
    (if CamelBoundary(s, pos) then "_" else "") + BreakCamelCase(s[pos..])
  }

  lemma RemainingUnfolds(s: string, pos: nat)
    requires pos < |s|
    ensures var rest := [s[pos]] + Remaining(s, pos + 1);
            Remaining(s, pos) == if CamelBoundary(s, pos) then ['_'] + rest else rest
  {
    BreaksEverywhere(s[pos..]);
    assert s[pos..][1..] == s[pos + 1..];
    if |s[pos..]| >= 2 {
      assert s[pos..][1] == s[pos + 1];
    } else {
      assert s[pos..] == [s[pos]] && BreakCamelCase(s[pos + 1..]) == "";
    }
  }

  lemma TokensStep(c: char, rest: string, run: string)
    ensures TokensFrom([c] + rest, run) ==
            if IsLowerOrDigit(c) then TokensFrom(rest, run + [c]) else Flush(run) + TokensFrom(rest, "")
  {
    assert ([c] + rest)[1..] == rest;
  }

  /** From `pos` on, splitting the broken-up, lower-cased text yields the words of `s`. */
  ghost predicate SplitsIntoWords(s: string, start: nat, pos: nat)
    requires start <= pos <= |s|
  {
    TokensFrom(Lower(Remaining(s, pos)), Lower(s[start..pos])) == WordsFrom(s, start, pos)
  }

  lemma {:induction false} TokensAreWords(s: string, start: nat, pos: nat)
    requires Running(s, start, pos) && (start == pos ==> !CamelBoundary(s, pos))
    ensures SplitsIntoWords(s, start, pos)
    decreases |s| - pos
  {
    if pos == |s| {
      NothingRemains(s, start);
    } else if CamelBoundary(s, pos) {
      TokensAreWords(s, pos, pos + 1);
      TokensAtBoundary(s, start, pos);
    } else if IsWordChar(s[pos]) {
      TokensAreWords(s, start, pos + 1);
      TokensInWord(s, start, pos);
    } else {
      TokensAreWords(s, pos + 1, pos + 1);
      TokensAtGap(s, start, pos);
    }
  }

  lemma NothingRemains(s: string, start: nat)
    requires start <= |s|
    ensures SplitsIntoWords(s, start, |s|)
  {
    assert s[|s|..] == "" && Remaining(s, |s|) == "" && Lower("") == "";
  }

  lemma LowerCons(c: char, s: string)
    ensures Lower([c] + s) == [LowerChar(c)] + Lower(s)
  {}

  lemma LowerRemaining(s: string, pos: nat)
    requires pos < |s|
    ensures var rest := [LowerChar(s[pos])] + Lower(Remaining(s, pos + 1));
            Lower(Remaining(s, pos)) == if CamelBoundary(s, pos) then ['_'] + rest else rest
  {
    var rest := Remaining(s, pos + 1);
    RemainingUnfolds(s, pos);
    LowerCons(s[pos], rest);
    if CamelBoundary(s, pos) {
      LowerCons('_', [s[pos]] + rest);
    }
  }

  lemma TokensAcrossBreak(c: char, rest: string, run: string)
    requires IsLowerOrDigit(c)
    ensures TokensFrom(['_'] + ([c] + rest), run) == Flush(run) + TokensFrom(rest, [c])
  {
    TokensStep('_', [c] + rest, run);
    TokensStep(c, rest, "");
    assert "" + [c] == [c];
  }

  lemma LowerSnoc(s: string, start: nat, pos: nat)
    requires start <= pos < |s|
    ensures Lower(s[start..pos]) + [LowerChar(s[pos])] == Lower(s[start..pos + 1])
    ensures start == pos ==> Lower(s[start..pos]) == "" && Lower(s[start..pos + 1]) == [LowerChar(s[pos])]
  {}

  lemma WordsAtBoundary(s: string, start: nat, pos: nat)
    requires start < pos && CamelBoundary(s, pos)
    ensures WordsFrom(s, start, pos) == Flush(Lower(s[start..pos])) + WordsFrom(s, pos, pos + 1)
  {}

  lemma TokensAtBoundary(s: string, start: nat, pos: nat)
    requires start < pos && CamelBoundary(s, pos) && SplitsIntoWords(s, pos, pos + 1)
    ensures SplitsIntoWords(s, start, pos)
  {
    var c, rest := LowerChar(s[pos]), Lower(Remaining(s, pos + 1));
    LowerRemaining(s, pos);
    TokensAcrossBreak(c, rest, Lower(s[start..pos]));
    LowerSnoc(s, pos, pos);
    WordsAtBoundary(s, start, pos);
  }

  lemma WordsInWord(s: string, start: nat, pos: nat)
    requires start <= pos < |s| && !CamelBoundary(s, pos) && IsWordChar(s[pos])
    ensures WordsFrom(s, start, pos) == WordsFrom(s, start, pos + 1)
  {}

  lemma TokensInWord(s: string, start: nat, pos: nat)
    requires start <= pos < |s| && !CamelBoundary(s, pos) && IsWordChar(s[pos]) && SplitsIntoWords(s, start, pos + 1)
    ensures SplitsIntoWords(s, start, pos)
  {
    LowerRemaining(s, pos);
    TokensStep(LowerChar(s[pos]), Lower(Remaining(s, pos + 1)), Lower(s[start..pos]));
    LowerSnoc(s, start, pos);
    WordsInWord(s, start, pos);
  }

  lemma WordsAtGap(s: string, start: nat, pos: nat)
    requires start <= pos < |s| && !IsWordChar(s[pos])
    ensures WordsFrom(s, start, pos) == Flush(Lower(s[start..pos])) + WordsFrom(s, pos + 1, pos + 1)
  {}

  lemma TokensAtGap(s: string, start: nat, pos: nat)
    requires start <= pos < |s| && !IsWordChar(s[pos]) && SplitsIntoWords(s, pos + 1, pos + 1)
    ensures SplitsIntoWords(s, start, pos)
  {
    LowerRemaining(s, pos);
    TokensStep(LowerChar(s[pos]), Lower(Remaining(s, pos + 1)), Lower(s[start..pos]));
    assert Lower(s[pos + 1..pos + 1]) == "";
    WordsAtGap(s, start, pos);
  }

  /** `token` is the lower-cased text of a word of `s` that begins at `start` or later. */
  ghost predicate WordAfter(s: string, start: int, token: string) {
    exists i, j :: start <= i && Word(s, i, j) && token == Lower(s[i..j])
  }

  /** A word that begins inside a run begins where the run does, and reaches at least as far. */
  lemma WordOfRun(s: string, start: nat, pos: nat, i: int, j: int)
    requires Running(s, start, pos) && Word(s, i, j) && start <= i < pos
    ensures i == start && pos <= j
  {
    forall k | start < k < pos ensures !Edge(s, k) {
      assert IsWordChar(s[k]) && IsWordChar(s[k - 1]) && !CamelBoundary(s, k);
    }
  }

  /** A run that ends at an edge is the only word that begins in it. */
  lemma RunIsWord(s: string, start: nat, pos: nat, token: string)
    requires Running(s, start, pos) && Edge(s, pos)
    ensures WordAfter(s, start, token) <==> WordAfter(s, pos, token) || (start < pos && token == Lower(s[start..pos]))
  {
    if start < pos {
      assert Word(s, start, pos);
    }
    if WordAfter(s, start, token) {
      var i, j :| start <= i && Word(s, i, j) && token == Lower(s[i..j]);
      if i < pos {
        WordOfRun(s, start, pos, i, j);
        WordStopsAtEdge(s, i, pos, j);
      }
    }
  }

  lemma WordStopsAtEdge(s: string, i: int, k: int, j: int)
    requires Word(s, i, j) && i < k && Edge(s, k) && k <= j
    ensures j == k
  {
  }

  lemma FlushIn(run: string, token: string)
    ensures token in Flush(run) <==> run != "" && token == run
  {}

  lemma {:induction false} WordsFromExact(s: string, start: nat, pos: nat, token: string)
    requires Running(s, start, pos) && (start == pos ==> !CamelBoundary(s, pos))
    ensures token in WordsFrom(s, start, pos) <==> WordAfter(s, start, token)
    decreases |s| - pos
  {
    FlushIn(Lower(s[start..pos]), token);
    if pos == |s| {
      RunIsWord(s, start, pos, token);
      assert !WordAfter(s, pos, token);
    } else if !IsWordChar(s[pos]) {
      RunIsWord(s, start, pos, token);
      WordsFromExact(s, pos + 1, pos + 1, token);
      NoWordStartsAt(s, pos, token);
    } else if start < pos && CamelBoundary(s, pos) {
      RunIsWord(s, start, pos, token);
      WordsFromExact(s, pos, pos + 1, token);
    } else {
      WordsFromExact(s, start, pos + 1, token);
    }
  }

  lemma NoWordStartsAt(s: string, pos: nat, token: string)
    requires pos < |s| && !IsWordChar(s[pos])
    ensures WordAfter(s, pos, token) <==> WordAfter(s, pos + 1, token)
  {
    if WordAfter(s, pos, token) {
      var i, j :| pos <= i && Word(s, i, j) && token == Lower(s[i..j]);
      assert i != pos;
    }
  }

  // White space around a key does not matter.

  lemma ConsSlice(c: char, s: string, i: int, j: int)
    requires 0 <= i <= j <= |s|
    ensures ([c] + s)[i + 1..j + 1] == s[i..j]
  {
    var t := [c] + s;
    assert t[1..] == s;
    assert t[i + 1..j + 1] == t[1..][i..j];
  }

  lemma WordDown(c: char, s: string, i: int, j: int)
    requires !IsWordChar(c) && 0 < i && Word([c] + s, i, j)
    ensures Word(s, i - 1, j - 1) && ([c] + s)[i..j] == s[i - 1..j - 1]
  {
    var t := [c] + s;
    ConsSlice(c, s, i - 1, j - 1);
    EdgeShift(c, s, i - 1);
    EdgeShift(c, s, j - 1);
    forall k | i - 1 <= k < j - 1 ensures IsWordChar(s[k]) { assert IsWordChar(t[k + 1]); }
    forall k | i - 1 < k < j - 1 ensures !CamelBoundary(s, k) {
      assert !CamelBoundary(t, k + 1);
      assert t[k + 1] == s[k] && t[k] == s[k - 1];
    }
    assert Word(s, i - 1, j - 1);
  }

  lemma WordUp(c: char, s: string, i: int, j: int)
    requires !IsWordChar(c) && Word(s, i, j)
    ensures Word([c] + s, i + 1, j + 1) && ([c] + s)[i + 1..j + 1] == s[i..j]
  {
    var t := [c] + s;
    ConsSlice(c, s, i, j);
    EdgeShift(c, s, i);
    EdgeShift(c, s, j);
    forall k | i + 1 <= k < j + 1 ensures IsWordChar(t[k]) { assert IsWordChar(s[k - 1]); }
    forall k | i + 1 < k < j + 1 ensures !CamelBoundary(t, k) {
      assert !CamelBoundary(s, k - 1);
      assert t[k] == s[k - 1] && t[k - 1] == s[k - 2];
    }
    assert Word(t, i + 1, j + 1);
  }

  lemma EdgeShift(c: char, s: string, i: int)
    requires !IsWordChar(c) && 0 <= i <= |s|
    ensures Edge([c] + s, i + 1) <==> Edge(s, i)
  {}

  lemma LeadingIgnored(c: char, s: string, token: string)
    requires !IsWordChar(c)
    ensures WordAfter([c] + s, 0, token) <==> WordAfter(s, 0, token)
  {
    if WordAfter([c] + s, 0, token) {
      var i, j :| 0 <= i && Word([c] + s, i, j) && token == Lower(([c] + s)[i..j]);
      assert IsWordChar(([c] + s)[i]);
      WordDown(c, s, i, j);
    }
    if WordAfter(s, 0, token) {
      var i, j :| 0 <= i && Word(s, i, j) && token == Lower(s[i..j]);
      WordUp(c, s, i, j);
    }
  }

  lemma TrailingIgnored(s: string, c: char, token: string)
    requires !IsWordChar(c)
    ensures WordAfter(s + [c], 0, token) <==> WordAfter(s, 0, token)
  {
    var t := s + [c];
    if WordAfter(t, 0, token) {
      var i, j :| 0 <= i && Word(t, i, j) && token == Lower(t[i..j]);
      assert IsWordChar(t[j - 1]);
      assert j <= |s|;
      WordInFront(s, c, i, j);
    }
    if WordAfter(s, 0, token) {
      var i, j :| 0 <= i && Word(s, i, j) && token == Lower(s[i..j]);
      WordInFront(s, c, i, j);
    }
  }

  lemma WordInFront(s: string, c: char, i: int, j: int)
    requires !IsWordChar(c) && 0 <= i < j <= |s|
    ensures Word(s + [c], i, j) <==> Word(s, i, j)
    ensures (s + [c])[i..j] == s[i..j]
  {
    var t := s + [c];
    assert Edge(t, i) <==> Edge(s, i);
    assert Edge(t, j) <==> Edge(s, j);
    assert forall k | 0 <= k < |s| :: t[k] == s[k];
    assert forall k | 0 <= k < |s| :: CamelBoundary(t, k) <==> CamelBoundary(s, k);
  }

  lemma {:induction false} TrimStartIgnored(s: string, token: string)
    ensures WordAfter(TrimStart(s), 0, token) <==> WordAfter(s, 0, token)
  {
    if s != "" && IsSpace(s[0]) {
      assert s == [s[0]] + s[1..];
      TrimStartIgnored(s[1..], token);
      LeadingIgnored(s[0], s[1..], token);
    }
  }

  lemma {:induction false} TrimEndIgnored(s: string, token: string)
    ensures WordAfter(TrimEnd(s), 0, token) <==> WordAfter(s, 0, token)
  {
    if s != "" && IsSpace(s[|s| - 1]) {
      assert s == s[..|s| - 1] + [s[|s| - 1]];
      TrimEndIgnored(s[..|s| - 1], token);
      TrailingIgnored(s[..|s| - 1], s[|s| - 1], token);
    }
  }

  /** The tokens of a key are exactly its words in lower case, where a word is a maximal run of
      letters and digits, cut at every camel-case boundary. Trimming makes no difference. */
  lemma TokensExact(key: string, token: string)
    ensures token in Tokens(key) <==> WordAfter(key, 0, token)
  {
    var s := Trim(key);
    TokensAreWords(s, 0, 0);
    assert s[0..] == s && Lower(s[0..0]) == "" && "" + BreakCamelCase(s) == BreakCamelCase(s);
    WordsFromExact(s, 0, 0, token);
    TrimEndIgnored(TrimStart(key), token);
    TrimStartIgnored(key, token);
  }

  lemma UnsafeKeyExact(key: string)
    ensures UnsafeKey(key) <==> exists i, j :: Word(key, i, j) && Lower(key[i..j]) in UNSAFE_TOKENS
  {
    if UnsafeKey(key) {
      var token :| token in Tokens(key) && token in UNSAFE_TOKENS;
      TokensExact(key, token);
    }
    if i, j :| Word(key, i, j) && Lower(key[i..j]) in UNSAFE_TOKENS {
      TokensExact(key, Lower(key[i..j]));
    }
  }

  /** Tokens have no underscore, so the three entries of the set that do never match one. */
  lemma TokensHaveNoUnderscore(key: string, token: string)
    requires token in Tokens(key)
    ensures '_' !in token
  {
    TokensExact(key, token);
    var i, j :| 0 <= i && Word(key, i, j) && token == Lower(key[i..j]);
    forall k | 0 <= k < |token| ensures token[k] != '_' {
      assert IsWordChar(key[i + k]);
    }
  }

  /** `e` is a word by itself: lower-case letters only. */
  ghost predicate Lettered(e: string) {
    e != "" && forall k | 0 <= k < |e| :: 'a' <= e[k] <= 'z'
  }

  lemma PlainEntries(e: string)
    requires e in UNSAFE_TOKENS && e !in {"query_sql", "provider_tool", "provider_tools"}
    ensures Lettered(e)
  {}

  lemma WordIsToken(e: string)
    requires Lettered(e)
    ensures e in Tokens(e)
  {
    assert Word(e, 0, |e|) && e[0..|e|] == e && Lower(e) == e;
    TokensExact(e, e);
  }

  /** An entry of the set can match a token of some key exactly when it contains no underscore. */
  lemma UnderscoreEntriesAreDead(e: string)
    requires e in UNSAFE_TOKENS
    ensures (exists key :: e in Tokens(key)) <==> '_' !in e
    ensures '_' in e <==> e in {"query_sql", "provider_tool", "provider_tools"}
  {
    assert "query_sql"[5] == '_' && "provider_tool"[8] == '_' && "provider_tools"[8] == '_';
    if e in {"query_sql", "provider_tool", "provider_tools"} {
      forall key ensures e !in Tokens(key) {
        if e in Tokens(key) { TokensHaveNoUnderscore(key, e); }
      }
    } else {
      PlainEntries(e);
      WordIsToken(e);
    }
  }

  /** Still every entry, dead or not, is rejected when it is itself used as a key: the dead ones
      through their last word. */
  lemma EveryEntryIsUnsafe(e: string)
    requires e in UNSAFE_TOKENS
    ensures UnsafeKey(e)
  {
    if e == "query_sql" {
      assert e == "query_" + "sql";
      LastWordUnsafe("query_", "sql");
    } else if e == "provider_tool" {
      assert e == "provider_" + "tool";
      LastWordUnsafe("provider_", "tool");
    } else if e == "provider_tools" {
      assert e == "provider_" + "tools";
      LastWordUnsafe("provider_", "tools");
    } else {
      PlainEntries(e);
      WordIsToken(e);
    }
  }

  lemma LastWordUnsafe(head: string, word: string)
    requires head != "" && !IsWordChar(head[|head| - 1]) && word != "" && word in UNSAFE_TOKENS
    requires forall k | 0 <= k < |word| :: 'a' <= word[k] <= 'z'
    ensures UnsafeKey(head + word)
  {
    var key := head + word;
    forall k | |head| <= k < |key| ensures 'a' <= key[k] <= 'z' {
      assert key[k] == word[k - |head|];
    }
    assert Word(key, |head|, |key|);
    assert key[|head|..|key|] == word && Lower(word) == word;
    UnsafeKeyExact(key);
  }
}
