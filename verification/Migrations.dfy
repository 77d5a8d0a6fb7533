/** Loading migration files, and what applying a list of them to a tracking table means. */
module Migrations {
  import opened Sequences
  import opened Strings

  datatype MigrationFile = MigrationFile(version: string, name: string, filename: string, sql: string, checksum: string)

  datatype LoadResult =
    | Loaded(files: seq<MigrationFile>)
    | DuplicateVersion(version: string, previous: string, file: string)

  // ----------------------------------------------------------- file name patterns

  /** `f` is `version_name.sql` in the sense of `/^(\d+)_(.+)\.sql$/`. */
  ghost predicate Matches(f: string, version: string, name: string) {
    && version != "" && AllDigits(version)
    && name != "" && (forall c | c in name :: !IsLineBreak(c))
    && f == version + "_" + name + ".sql"
  }

  datatype Parsed = NoMatch | Match(version: string, name: string)

  function ParseName(f: string): Parsed {
    var n := DigitRun(f);
    if n == 0 || n == |f| || f[n] != '_' || |f| < n + 6 || !EndsWith(f, ".sql") then NoMatch
    else
      var name := f[n + 1..|f| - 4];
      if HasLineBreak(name) then NoMatch else Match(f[..n], name)
  }

  /** Parsing recognises exactly the pattern, and reads off its two groups. */
  lemma ParseNameExact(f: string, version: string, name: string)
    ensures ParseName(f) == Match(version, name) <==> Matches(f, version, name)
  {
    if Matches(f, version, name) {
      MatchesIsParsed(version, name);
    }
    if ParseName(f) == Match(version, name) {
      ParsedMatches(f);
    }
  }

  lemma ParsedMatches(f: string)
    requires ParseName(f).Match?
    ensures Matches(f, ParseName(f).version, ParseName(f).name)
  {
    var n := DigitRun(f);
    assert f[n..] == "_" + f[n + 1..|f| - 4] + ".sql";
    assert f == f[..n] + f[n..];
    assert f == f[..n] + "_" + f[n + 1..|f| - 4] + ".sql";
  }

  lemma MatchesIsParsed(version: string, name: string)
    requires Matches(version + "_" + name + ".sql", version, name)
    ensures ParseName(version + "_" + name + ".sql") == Match(version, name)
  {
    var f := version + "_" + name + ".sql";
    DigitRunStopsAt(version, "_" + name + ".sql");
    assert f == version + ("_" + name + ".sql");
    var n := |version|;
    assert f[..n] == version && f[n] == '_';
    assert f[n + 1..|f| - 4] == name && f[|f| - 4..] == ".sql";
  }

  // ------------------------------------------------------------------ loadMigrations

  function Filtered(listing: seq<string>): seq<string> {
    if listing == [] then []
    else (if ParseName(listing[0]).Match? then [listing[0]] else []) + Filtered(listing[1..])
  }

  lemma {:induction false} FilteredKeepsMatches(listing: seq<string>)
    requires Distinct(listing)
    ensures forall f :: f in Filtered(listing) <==> f in listing && ParseName(f).Match?
    ensures Distinct(Filtered(listing))
  {
    if listing != [] {
      FilteredKeepsMatches(listing[1..]);
      assert listing == [listing[0]] + listing[1..];
    }
  }

  ghost predicate SharesVersion(f: string, g: string) {
    f != g && ParseName(f).Match? && ParseName(g).Match? && ParseName(f).version == ParseName(g).version
  }

  ghost predicate HasDuplicate(listing: seq<string>) {
    exists f, g :: f in listing && g in listing && SharesVersion(f, g)
  }

  ghost predicate FileFrom(m: MigrationFile, contents: string -> string, sha256: string -> string) {
    && Matches(m.filename, m.version, m.name)
    && m.sql == contents(m.filename)
    && m.checksum == sha256(m.sql)
  }

  ghost predicate DistinctVersions(files: seq<MigrationFile>) {
    forall i, j | 0 <= i < j < |files| :: files[i].version != files[j].version
  }

  ghost predicate AllMatch(files: seq<string>) {
    forall i | 0 <= i < |files| :: ParseName(files[i]).Match?
  }

  ghost predicate DistinctPrefixes(files: seq<string>)
    requires AllMatch(files)
  {
    forall i, j | 0 <= i < j < |files| :: ParseName(files[i]).version != ParseName(files[j]).version
  }

  function ReadFile(file: string, contents: string -> string, sha256: string -> string): MigrationFile
    requires ParseName(file).Match?
  {
    var sql := contents(file);
    MigrationFile(ParseName(file).version, ParseName(file).name, file, sql, sha256(sql))
  }

  /** The `seenVersions` map after the given files. */
  ghost function Seen(files: seq<string>): map<string, string>
    requires AllMatch(files)
  {
    if files == [] then map[]
    else Seen(files[..|files| - 1])[ParseName(files[|files| - 1]).version := files[|files| - 1]]
  }

  lemma {:induction false} SeenVersions(files: seq<string>, v: string)
    requires AllMatch(files)
    ensures v in Seen(files) ==>
              exists i :: 0 <= i < |files| && files[i] == Seen(files)[v] && ParseName(files[i]).version == v
    ensures v !in Seen(files) ==> forall i | 0 <= i < |files| :: ParseName(files[i]).version != v
  {
    if files != [] {
      var front := files[..|files| - 1];
      SeenVersions(front, v);
      if v in Seen(files) && v != ParseName(files[|files| - 1]).version {
        var i :| 0 <= i < |front| && front[i] == Seen(front)[v] && ParseName(front[i]).version == v;
        assert files[i] == front[i];
      }
      if v !in Seen(files) {
        forall i | 0 <= i < |files| ensures ParseName(files[i]).version != v {
          if i < |front| { assert files[i] == front[i]; }
        }
      }
    }
  }

  /** Load the migration files of a directory. It throws exactly when two file names that match
      the pattern share a version; otherwise it returns every matching file, once, in strictly
      ascending order of file name. */
  method LoadMigrations(listing: seq<string>, contents: string -> string, sha256: string -> string)
    returns (r: LoadResult)
    requires Distinct(listing)
    ensures r.DuplicateVersion? <==> HasDuplicate(listing)
    ensures r.DuplicateVersion? ==> && r.previous in listing && r.file in listing && Less(r.previous, r.file)
                                    && SharesVersion(r.previous, r.file) && ParseName(r.file).version == r.version
    ensures r.Loaded? ==> LoadedFrom(r.files, listing, contents, sha256)
  {
    var files := Sort(Filtered(listing));
    SortedMatches(listing);
    var seenVersions: map<string, string> := map[];
    var loaded: seq<MigrationFile> := [];
    for k := 0 to |files|
      invariant LoadState(files, k, seenVersions, loaded, contents, sha256)
    {
      var file := files[k];
      var version := ParseName(file).version;
      if version in seenVersions {
        DuplicateFound(listing, files, seenVersions[version], k);
        return DuplicateVersion(version, seenVersions[version], file);
      }
      LoadStateExtends(files, k, seenVersions, loaded, contents, sha256);
      seenVersions := seenVersions[version := file];
      loaded := loaded + [ReadFile(file, contents, sha256)];
    }
    LoadedWhenDistinct(listing, files, seenVersions, loaded, contents, sha256);
    r := Loaded(loaded);
  }

  /** After `k` files: their versions are distinct and all remembered, and each was read. */
  ghost predicate LoadState(files: seq<string>, k: nat, seenVersions: map<string, string>, loaded: seq<MigrationFile>,
                            contents: string -> string, sha256: string -> string) {
    && k <= |files| && |loaded| == k
    && AllMatch(files) && AllMatch(files[..k]) && DistinctPrefixes(files[..k])
    && seenVersions == Seen(files[..k])
    && (forall i | 0 <= i < k :: loaded[i] == ReadFile(files[i], contents, sha256))
  }

  lemma LoadStateExtends(files: seq<string>, k: nat, seenVersions: map<string, string>, loaded: seq<MigrationFile>,
                         contents: string -> string, sha256: string -> string)
    requires LoadState(files, k, seenVersions, loaded, contents, sha256) && k < |files|
    requires ParseName(files[k]).version !in seenVersions
    ensures LoadState(files, k + 1, seenVersions[ParseName(files[k]).version := files[k]],
                      loaded + [ReadFile(files[k], contents, sha256)], contents, sha256)
  {
    DistinctPrefixesSnoc(files, k);
  }

  /** `loaded` holds every matching file of the listing once, in ascending order of file name,
      with its own text and checksum. */
  ghost predicate LoadedFrom(loaded: seq<MigrationFile>, listing: seq<string>, contents: string -> string,
                             sha256: string -> string) {
    && DistinctVersions(loaded)
    && (forall i, j | 0 <= i < j < |loaded| :: Less(loaded[i].filename, loaded[j].filename))
    && (forall i | 0 <= i < |loaded| :: loaded[i].filename in listing && FileFrom(loaded[i], contents, sha256))
    && (forall f | f in listing && ParseName(f).Match? :: exists i :: 0 <= i < |loaded| && loaded[i].filename == f)
  }

  /** The sorted file names are exactly the matching ones. */
  ghost predicate SortedListing(listing: seq<string>, files: seq<string>) {
    && AllMatch(files) && StrictlyAscending(files)
    && (forall f :: f in files <==> f in listing && ParseName(f).Match?)
  }

  lemma SortedMatches(listing: seq<string>)
    requires Distinct(listing)
    ensures SortedListing(listing, Sort(Filtered(listing)))
  {
    var files := Sort(Filtered(listing));
    FilteredKeepsMatches(listing);
    SortOfDistinct(Filtered(listing));
    SortMembers(Filtered(listing));
    forall i | 0 <= i < |files| ensures ParseName(files[i]).Match? { assert files[i] in files; }
  }

  lemma DuplicateFound(listing: seq<string>, files: seq<string>, previous: string, k: int)
    requires SortedListing(listing, files) && 0 <= k < |files| && AllMatch(files[..k])
    requires ParseName(files[k]).version in Seen(files[..k])
    requires Seen(files[..k])[ParseName(files[k]).version] == previous
    ensures previous in listing && files[k] in listing && Less(previous, files[k]) && SharesVersion(previous, files[k])
    ensures HasDuplicate(listing)
  {
    SeenVersions(files[..k], ParseName(files[k]).version);
    var i :| 0 <= i < k && files[..k][i] == previous && ParseName(previous).version == ParseName(files[k]).version;
    assert files[i] in files && files[k] in files;
    LessIrreflexive(files[k]);
  }

  lemma DistinctPrefixesSnoc(files: seq<string>, k: nat)
    requires k < |files| && AllMatch(files) && AllMatch(files[..k]) && DistinctPrefixes(files[..k])
    requires ParseName(files[k]).version !in Seen(files[..k])
    ensures AllMatch(files[..k + 1]) && DistinctPrefixes(files[..k + 1]) && files[..k + 1][..k] == files[..k]
  {
    var version := ParseName(files[k]).version;
    SeenVersions(files[..k], version);
    forall i, j | 0 <= i < j < k + 1 ensures ParseName(files[i]).version != ParseName(files[j]).version {
      assert files[i] == files[..k][i];
      if j < k { assert files[j] == files[..k][j]; }
    }
  }

  lemma LoadedWhenDistinct(listing: seq<string>, files: seq<string>, seenVersions: map<string, string>,
                           loaded: seq<MigrationFile>, contents: string -> string, sha256: string -> string)
    requires SortedListing(listing, files) && LoadState(files, |files|, seenVersions, loaded, contents, sha256)
    ensures LoadedFrom(loaded, listing, contents, sha256)
    ensures !HasDuplicate(listing)
  {
    assert files[..|files|] == files;
    NoDuplicateWhenDistinct(listing, files);
    forall i | 0 <= i < |loaded| ensures loaded[i].filename in listing && FileFrom(loaded[i], contents, sha256) {
      LoadedOne(listing, files, i, contents, sha256);
    }
    forall f | f in listing && ParseName(f).Match? ensures exists i :: 0 <= i < |loaded| && loaded[i].filename == f {
      assert f in files;
      var i :| 0 <= i < |files| && files[i] == f;
      assert loaded[i].filename == f;
    }
  }

  lemma LoadedOne(listing: seq<string>, files: seq<string>, i: int, contents: string -> string,
                  sha256: string -> string)
    requires SortedListing(listing, files) && 0 <= i < |files|
    ensures files[i] in listing && FileFrom(ReadFile(files[i], contents, sha256), contents, sha256)
  {
    assert files[i] in files;
    ParseNameExact(files[i], ParseName(files[i]).version, ParseName(files[i]).name);
  }

  lemma NoDuplicateWhenDistinct(listing: seq<string>, files: seq<string>)
    requires SortedListing(listing, files) && DistinctPrefixes(files)
    ensures !HasDuplicate(listing)
  {
    forall f, g | f in listing && g in listing && f != g && ParseName(f).Match? && ParseName(g).Match?
      ensures ParseName(f).version != ParseName(g).version
    {
      assert f in files && g in files;
      var i :| 0 <= i < |files| && files[i] == f;
      var j :| 0 <= j < |files| && files[j] == g;
      assert ParseName(files[i]).version != ParseName(files[j]).version;
    }
  }

  /** File names and versions put `a` and `b` in the same order. */
  ghost predicate OrdersAgree(a: MigrationFile, b: MigrationFile)
    requires AllDigits(a.version) && AllDigits(b.version)
  {
    && (Less(a.filename, b.filename) <==> Value(a.version) < Value(b.version))
    && (Less(b.filename, a.filename) <==> Value(b.version) < Value(a.version))
  }

  lemma DigitsInFront(s: string, n: nat)
    requires AllDigits(s) && n <= |s|
    ensures AllDigits(s[..n]) && Value(s[..n]) <= Value(s)
    decreases |s|
  {
    if n < |s| {
      assert s[..|s| - 1][..n] == s[..n];
      assert AllDigits(s[..|s| - 1]);
      DigitsInFront(s[..|s| - 1], n);
    } else {
      assert s[..n] == s;
    }
  }

  /** Whether name order agrees with numeric order can be read off the versions: the shorter one has
      to be smaller than as many leading digits of the longer one, or else the larger number. */
  predicate NamesFollowNumbers(shorter: string, longer: string)
    requires AllDigits(shorter) && AllDigits(longer) && |shorter| <= |longer|
  {
    DigitsInFront(longer, |shorter|);
    Value(shorter) < Value(longer[..|shorter|]) || Value(longer) < Value(shorter)
  }

  /** Applying in file-name order is applying in numeric version order exactly under that condition;
      in particular whenever versions are written with the same number of digits. */
  lemma NameOrderIsNumericOrder(a: MigrationFile, b: MigrationFile)
    requires Matches(a.filename, a.version, a.name) && Matches(b.filename, b.version, b.name)
    requires a.version != b.version && |a.version| <= |b.version|
    ensures OrdersAgree(a, b) <==> NamesFollowNumbers(a.version, b.version)
    ensures |a.version| == |b.version| ==> OrdersAgree(a, b)
  {
    var n := |a.version|;
    var front, rest := b.version[..n], b.version[n..] + "_" + b.name + ".sql";
    DigitsInFront(b.version, n);
    assert a.filename == a.version + ("_" + a.name + ".sql");
    assert b.version == front + b.version[n..];
    assert b.filename == front + rest;
    LessIsNumeric(a.version, front);
    if a.version == front {
      LongerNameFirst(a, b);
    } else {
      LessByHead(a.version, front, "_" + a.name + ".sql", rest);
      LessByHead(front, a.version, rest, "_" + a.name + ".sql");
      LessIsNumeric(front, a.version);
      assert |a.version| == |b.version| ==> front == b.version;
    }
  }

  /** A longer version that only adds digits comes first, because digits sort before `_`. */
  lemma LongerNameFirst(a: MigrationFile, b: MigrationFile)
    requires Matches(a.filename, a.version, a.name) && Matches(b.filename, b.version, b.name)
    requires a.version != b.version && |a.version| <= |b.version| && b.version[..|a.version|] == a.version
    ensures Less(b.filename, a.filename) && !Less(a.filename, b.filename)
  {
    var n := |a.version|;
    assert b.version == b.version[..n] + b.version[n..] && b.version[n..] != "";
    var x, y := "_" + a.name + ".sql", b.version[n..] + "_" + b.name + ".sql";
    assert a.filename == a.version + x && b.filename == a.version + y;
    assert y[0] == b.version[n] && b.version[n] in b.version;
    LessAfterCommonHead(a.version, x, y);
    LessAfterCommonHead(a.version, y, x);
  }

  ghost predicate SameWidth(files: seq<MigrationFile>) {
    forall i, j | 0 <= i < j < |files| :: |files[i].version| == |files[j].version|
  }

  ghost predicate VersionsAreNumbers(files: seq<MigrationFile>) {
    forall i | 0 <= i < |files| :: AllDigits(files[i].version)
  }

  /** The versions of a list go strictly up as numbers. */
  ghost predicate InNumericOrder(files: seq<MigrationFile>)
    requires VersionsAreNumbers(files)
  {
    forall i, j | 0 <= i < j < |files| :: Value(files[i].version) < Value(files[j].version)
  }

  ghost predicate PairFollowsNumbers(a: string, b: string)
    requires AllDigits(a) && AllDigits(b)
  {
    if |a| <= |b| then NamesFollowNumbers(a, b) else NamesFollowNumbers(b, a)
  }

  /** The list that `loadMigrations` returns is in numeric order exactly when each two of its versions
      meet the condition, and so whenever all have the same width. */
  lemma LoadedInNumericOrder(loaded: seq<MigrationFile>, listing: seq<string>, contents: string -> string,
                             sha256: string -> string)
    requires LoadedFrom(loaded, listing, contents, sha256)
    ensures VersionsAreNumbers(loaded)
    ensures InNumericOrder(loaded) <==>
              forall i, j | 0 <= i < j < |loaded| :: PairFollowsNumbers(loaded[i].version, loaded[j].version)
    ensures SameWidth(loaded) ==> InNumericOrder(loaded)
  {
    forall i, j | 0 <= i < j < |loaded|
      ensures Value(loaded[i].version) < Value(loaded[j].version)
         <==> PairFollowsNumbers(loaded[i].version, loaded[j].version)
      ensures |loaded[i].version| == |loaded[j].version| ==> Value(loaded[i].version) < Value(loaded[j].version)
    {
      LoadedPair(loaded[i], loaded[j]);
    }
  }

  lemma LoadedPair(a: MigrationFile, b: MigrationFile)
    requires Matches(a.filename, a.version, a.name) && Matches(b.filename, b.version, b.name)
    requires a.version != b.version && Less(a.filename, b.filename)
    ensures Value(a.version) < Value(b.version) <==> PairFollowsNumbers(a.version, b.version)
    ensures |a.version| == |b.version| ==> Value(a.version) < Value(b.version)
  {
    LessAsymmetric(a.filename, b.filename);
    if |a.version| <= |b.version| {
      NameOrderIsNumericOrder(a, b);
      DigitsInFront(b.version, |a.version|);
    } else {
      NameOrderIsNumericOrder(b, a);
      DigitsInFront(a.version, |b.version|);
    }
  }

  /** With widths that differ it need not be: `10_b.sql` runs before `9_a.sql`. */
  lemma NameOrderCanDisagree()
    ensures Matches("9_a.sql", "9", "a") && Matches("10_b.sql", "10", "b")
    ensures Less("10_b.sql", "9_a.sql") && Value("9") < Value("10") && !NamesFollowNumbers("9", "10")
  {
    assert Value("9") == 9 by { assert "9"[..0] == ""; }
    assert Value("10") == 10 && Value("10"[..1]) == 1 by { assert "10"[..1] == "1" && "1"[..0] == ""; }
    assert "9_a.sql" == "9" + "_" + "a" + ".sql";
    assert "10_b.sql" == "10" + "_" + "b" + ".sql";
  }

  // ------------------------------------------------- tracking table, pending files

  datatype Row = Row(name: string, checksum: string)

  type Table = map<string, Row>

  function RowOf(f: MigrationFile): Row {
    Row(f.name, f.checksum)
  }

  /** The rows that recording `log` leaves, on top of `t`. */
  function Recorded(t: Table, log: seq<MigrationFile>): Table {
    if log == [] then t
    else Recorded(t, log[..|log| - 1])[log[|log| - 1].version := RowOf(log[|log| - 1])]
  }

  function Versions(files: seq<MigrationFile>): seq<string> {
    seq(|files|, i requires 0 <= i < |files| => files[i].version)
  }

  /** The files whose version `t` does not list, in order. */
  function Pending(files: seq<MigrationFile>, t: Table): seq<MigrationFile> {
    if files == [] then []
    else
      var rest := Pending(files[..|files| - 1], t);
      if files[|files| - 1].version in t then rest else rest + [files[|files| - 1]]
  }

  /** `f` is recorded in `t` with different content. */
  predicate Mismatch(f: MigrationFile, t: Table) {
    f.version in t && t[f.version].checksum != f.checksum
  }

  ghost predicate NoMismatch(files: seq<MigrationFile>, t: Table) {
    forall i | 0 <= i < |files| :: !Mismatch(files[i], t)
  }

  lemma {:induction false} RecordedKeySet(t: Table, log: seq<MigrationFile>)
    ensures Recorded(t, log).Keys == t.Keys + set f | f in log :: f.version
  {
    if log != [] {
      var front, last := log[..|log| - 1], log[|log| - 1];
      RecordedKeySet(t, front);
      assert log == front + [last];
      assert (set f | f in log :: f.version) == (set f | f in front :: f.version) + {last.version};
    }
  }

  lemma RecordedKeys(t: Table, log: seq<MigrationFile>, v: string)
    ensures v in Recorded(t, log) <==> v in t || exists i :: 0 <= i < |log| && log[i].version == v
    ensures (forall i | 0 <= i < |log| :: log[i].version != v) && v in t ==>
              v in Recorded(t, log) && Recorded(t, log)[v] == t[v]
  {
    RecordedKeySet(t, log);
    if forall i | 0 <= i < |log| :: log[i].version != v {
      RecordedElsewhere(t, log, v);
    }
  }

  lemma {:induction false} RecordedElsewhere(t: Table, log: seq<MigrationFile>, v: string)
    requires forall i | 0 <= i < |log| :: log[i].version != v
    ensures v in Recorded(t, log) <==> v in t
    ensures v in t ==> Recorded(t, log)[v] == t[v]
  {
    if log != [] {
      var front := log[..|log| - 1];
      forall i | 0 <= i < |front| ensures front[i].version != v { assert front[i] == log[i]; }
      RecordedElsewhere(t, front, v);
    }
  }

  lemma {:induction false} RecordedAppend(t: Table, a: seq<MigrationFile>, b: seq<MigrationFile>)
    ensures Recorded(t, a + b) == Recorded(Recorded(t, a), b)
  {
    if b == [] {
      assert a + b == a;
    } else {
      assert (a + b)[..|a + b| - 1] == a + b[..|b| - 1];
      RecordedAppend(t, a, b[..|b| - 1]);
    }
  }

  lemma {:induction false} PendingMembers(files: seq<MigrationFile>, t: Table, f: MigrationFile)
    ensures f in Pending(files, t) <==> f in files && f.version !in t
  {
    if files != [] {
      PendingMembers(files[..|files| - 1], t, f);
      assert files == files[..|files| - 1] + [files[|files| - 1]];
    }
  }

  /** With distinct versions, a file's version is still unrecorded when its turn comes. */
  lemma UnrecordedUntilItsTurn(files: seq<MigrationFile>, t: Table, k: int)
    requires DistinctVersions(files) && 0 <= k < |files|
    ensures files[k].version in Recorded(t, Pending(files[..k], t)) <==> files[k].version in t
  {
    var p := Pending(files[..k], t);
    RecordedKeys(t, p, files[k].version);
    if i :| 0 <= i < |p| && p[i].version == files[k].version {
      PendingMembers(files[..k], t, p[i]);
    }
  }

  lemma {:induction false} PendingAppend(a: seq<MigrationFile>, b: seq<MigrationFile>, t: Table)
    ensures Pending(a + b, t) == Pending(a, t) + Pending(b, t)
  {
    if b == [] {
      assert a + b == a;
    } else {
      assert (a + b)[..|a + b| - 1] == a + b[..|b| - 1];
      PendingAppend(a, b[..|b| - 1], t);
    }
  }

  /** Recording other versions does not change what is pending. */
  lemma {:induction false} PendingDependsOnOwnVersions(files: seq<MigrationFile>, t: Table, u: Table)
    requires forall f | f in files :: f.version in t <==> f.version in u
    ensures Pending(files, t) == Pending(files, u)
  {
    if files != [] {
      PendingDependsOnOwnVersions(files[..|files| - 1], t, u);
    }
  }

  /** What is pending after the first `k` files were brought up to date. */
  lemma {:induction false} PendingAfter(files: seq<MigrationFile>, t: Table, k: int)
    requires DistinctVersions(files) && 0 <= k <= |files|
    ensures var u := Recorded(t, Pending(files[..k], t));
            Pending(files[..k], u) == [] && Pending(files[k..], u) == Pending(files[k..], t)
  {
    var p := Pending(files[..k], t);
    var u := Recorded(t, p);
    if Pending(files[..k], u) != [] {
      var f := Pending(files[..k], u)[0];
      PendingMembers(files[..k], u, f);
      RecordedKeys(t, p, f.version);
      PendingMembers(files[..k], t, f);
    }
    forall f | f in files[k..] ensures f.version in t <==> f.version in u {
      RecordedKeys(t, p, f.version);
      if i :| 0 <= i < |p| && p[i].version == f.version {
        PendingMembers(files[..k], t, p[i]);
      }
    }
    PendingDependsOnOwnVersions(files[k..], t, u);
  }

  /** A run that stopped before file `k` and a later complete run together commit the same files
      in the same order, and leave the same table, as one uninterrupted run. */
  lemma ResumeReachesTheSame(files: seq<MigrationFile>, t: Table, k: int)
    requires DistinctVersions(files) && 0 <= k <= |files|
    ensures var first := Pending(files[..k], t);
            var second := Pending(files, Recorded(t, first));
            && first + second == Pending(files, t)
            && Recorded(Recorded(t, first), second) == Recorded(t, Pending(files, t))
  {
    var head, tail := files[..k], files[k..];
    var first := Pending(head, t);
    var u := Recorded(t, first);
    PendingAfter(files, t, k);
    assert files == head + tail;
    PendingAppend(head, tail, u);
    PendingAppend(head, tail, t);
    assert [] + Pending(tail, u) == Pending(tail, t);
    RecordedAppend(t, first, Pending(tail, t));
  }

  /** Running again right after a complete run applies nothing. */
  lemma RerunAppliesNothing(files: seq<MigrationFile>, t: Table)
    requires DistinctVersions(files)
    ensures Pending(files, Recorded(t, Pending(files, t))) == []
  {
    assert files[..|files|] == files;
    PendingAfter(files, t, |files|);
  }

  lemma PendingSnoc(files: seq<MigrationFile>, t: Table, k: nat)
    requires k < |files|
    ensures Pending(files[..k + 1], t)
         == if files[k].version in t then Pending(files[..k], t) else Pending(files[..k], t) + [files[k]]
  {
    assert files[..k + 1][..k] == files[..k];
  }

  lemma VersionsSnoc(p: seq<MigrationFile>, f: MigrationFile)
    ensures Versions(p + [f]) == Versions(p) + [f.version]
  {}

  lemma NoMismatchSnoc(files: seq<MigrationFile>, t: Table, k: nat)
    requires k < |files| && NoMismatch(files[..k], t) && !Mismatch(files[k], t)
    ensures NoMismatch(files[..k + 1], t)
  {
    var longer := files[..k + 1];
    forall n | 0 <= n < |longer| ensures !Mismatch(longer[n], t) {
      if n < k { assert files[..k][n] == longer[n]; }
    }
  }

  lemma RecordedSnoc(t: Table, p: seq<MigrationFile>, f: MigrationFile)
    ensures Recorded(t, p + [f]) == Recorded(t, p)[f.version := RowOf(f)]
  {
    assert (p + [f])[..|p|] == p;
  }

  /** A run leaves no mismatch behind, however far it got, so a rerun does not throw for one. */
  lemma PartialRunLeavesNoMismatch(files: seq<MigrationFile>, t: Table, k: nat)
    requires DistinctVersions(files) && NoMismatch(files, t) && k <= |files|
    ensures NoMismatch(files, Recorded(t, Pending(files[..k], t)))
  {
    var p := Pending(files[..k], t);
    forall i | 0 <= i < |files| ensures !Mismatch(files[i], Recorded(t, p)) {
      RecordedKeys(t, p, files[i].version);
      assert !Mismatch(files[i], t);
      forall j | 0 <= j < |p| && p[j].version == files[i].version ensures p[j] == files[i] && files[i].version !in t {
        PendingMembers(files[..k], t, p[j]);
      }
      if files[i] in p { RecordedRow(t, p, files[i]); }
    }
  }

  lemma {:induction false} RecordedRow(t: Table, log: seq<MigrationFile>, f: MigrationFile)
    requires f in log && forall i | 0 <= i < |log| :: log[i].version == f.version ==> log[i] == f
    ensures f.version in Recorded(t, log) && Recorded(t, log)[f.version] == RowOf(f)
  {
    var front, last := log[..|log| - 1], log[|log| - 1];
    if last != f {
      assert log == front + [last];
      forall i | 0 <= i < |front| && front[i].version == f.version ensures front[i] == f { assert front[i] == log[i]; }
      RecordedRow(t, front, f);
    }
  }
}
