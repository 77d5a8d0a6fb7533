/** Validation of archive member names before anything is extracted. */
module SafeExtract {
  import opened Sequences
  import opened Strings

  datatype Kind = IsDirectory | IsFile | IsSymlink | IsHardLink | IsOther

  datatype Member = Member(name: string, kind: Kind)

  datatype Outcome =
    | Extracted
    | DestinationNotEmpty
    | UnsafePath(name: string)
    | UnexpectedPath(name: string)
    | UnsupportedType(name: string)

  // ----------------------------------------------------------------- pure POSIX paths

  /** What lies between the slashes of a path. */
  function Components(s: string): (parts: seq<string>)
    ensures parts != []
    decreases |s|
  {
    if s == "" then [""]
    else if s[0] == '/' then [""] + Components(s[1..])
    else var rest := Components(s[1..]); [[s[0]] + rest[0]] + rest[1..]
  }

  /** Empty and `.` components are no parts of a path. */
  predicate Counts(component: string) {
    component != "" && component != "."
  }

  function Counting(components: seq<string>): seq<string> {
    if components == [] then []
    else if Counts(components[0]) then [components[0]] + Counting(components[1..])
    else Counting(components[1..])
  }

  predicate IsAbsolute(s: string) {
    StartsWith(s, "/")
  }

  /** The parts of a relative path. */
  function Parts(s: string): seq<string> {
    Counting(Components(s))
  }

  function RemovePrefix(s: string): string {
    if StartsWith(s, "./") then s[2..] else s
  }

  // --------------------------------------------------------------------- the check

  /** What becomes of one member. */
  datatype Verdict = Skipped | Passed | Refused(outcome: Outcome)

  function Check(member: Member, allowedRoots: set<string>): Verdict {
    var normalized := RemovePrefix(member.name);
    if normalized == "" || normalized == "." then Skipped
    else if IsAbsolute(normalized) || ".." in Parts(normalized) then Refused(UnsafePath(member.name))
    else if Parts(normalized) == [] || Parts(normalized)[0] !in allowedRoots then Refused(UnexpectedPath(member.name))
    else if member.kind.IsOther? then Refused(UnsupportedType(member.name))
    else Passed
  }

  predicate Refuses(member: Member, allowedRoots: set<string>) {
    Check(member, allowedRoots).Refused?
  }

  /** Where a path written below the destination leads, component by component; nothing if it
      steps above the destination on the way. */
  datatype Location = Outside | At(path: seq<string>)

  function Step(from: seq<string>, component: string): Location {
    if !Counts(component) then At(from)
    else if component == ".." then (if from == [] then Outside else At(from[..|from| - 1]))
    else At(from + [component])
  }

  function Walk(from: Location, components: seq<string>): Location
    decreases |components|
  {
    if components == [] || from.Outside? then from else Walk(Step(from.path, components[0]), components[1..])
  }

  /** Where a name leads from the destination. One that begins with a slash leads elsewhere. */
  function Resolve(name: string): Location {
    if name != "" && name[0] == '/' then Outside else Walk(At([]), Components(name))
  }

  /** The name leads to the destination itself or below one of the allowed roots. */
  ghost predicate StaysInside(name: string, allowedRoots: set<string>) {
    Resolve(name).At? && (Resolve(name).path == [] || Resolve(name).path[0] in allowedRoots)
  }

  ghost predicate LeadsBelowRoot(name: string, allowedRoots: set<string>) {
    Resolve(name).At? && Resolve(name).path != [] && Resolve(name).path[0] in allowedRoots
  }

  /** The directory the archive is unpacked into. */
  class Destination {
    var present: bool
    var entries: seq<Member>

    /** Validate every member, and only then extract them all. */
    method Extract(members: seq<Member>, allowedRoots: set<string>) returns (r: Outcome)
      modifies this
      ensures present
      ensures r.DestinationNotEmpty? <==> old(present) && old(entries) != []
      ensures r.Extracted? <==>
                !(old(present) && old(entries) != []) && forall m | m in members :: !Refuses(m, allowedRoots)
      ensures entries == if r.Extracted? then members else if old(present) then old(entries) else []
      ensures r.Extracted? ==> forall m | m in members :: StaysInside(m.name, allowedRoots)
      ensures r.Extracted? || r.DestinationNotEmpty? || FirstRefusal(members, allowedRoots, r)
    {
      if !present {
        present, entries := true, [];
      }
      if entries != [] {
        return DestinationNotEmpty;
      }
      for i := 0 to |members|
        invariant present && entries == [] && !(old(present) && old(entries) != [])
        invariant forall m | m in members[..i] :: !Refuses(m, allowedRoots)
      {
        var member := members[i];
        var normalized := RemovePrefix(member.name);
        assert members[..i + 1] == members[..i] + [member];
        if normalized == "" || normalized == "." {
          continue;
        }
        var parts := Parts(normalized);
        if IsAbsolute(normalized) || ".." in parts {
          RefusedAt(members, allowedRoots, i);
          return UnsafePath(member.name);
        }
        if parts == [] || parts[0] !in allowedRoots {
          RefusedAt(members, allowedRoots, i);
          return UnexpectedPath(member.name);
        }
        if member.kind.IsOther? {
          RefusedAt(members, allowedRoots, i);
          return UnsupportedType(member.name);
        }
      }
      assert members[..|members|] == members;
      forall m | m in members ensures StaysInside(m.name, allowedRoots) {
        NotRefusedStaysInside(m, allowedRoots);
      }
      entries := members;
      r := Extracted;
    }
  }

  ghost predicate FirstRefusal(members: seq<Member>, allowedRoots: set<string>, r: Outcome) {
    exists k :: 0 <= k < |members| && Check(members[k], allowedRoots) == Refused(r)
                && forall m | m in members[..k] :: !Refuses(m, allowedRoots)
  }

  lemma RefusedAt(members: seq<Member>, allowedRoots: set<string>, i: nat)
    requires i < |members| && Refuses(members[i], allowedRoots)
    requires forall m | m in members[..i] :: !Refuses(m, allowedRoots)
    ensures FirstRefusal(members, allowedRoots, Check(members[i], allowedRoots).outcome)
    ensures members[i] in members
  {}

  // -------------------------------------------------------------------------- lemmas

  /** Without `..` a walk ends at the components that count. */
  lemma {:induction false} WalkWithoutParents(from: seq<string>, components: seq<string>)
    requires ".." !in components
    ensures Walk(At(from), components) == At(from + Counting(components))
    decreases |components|
  {
    if components == [] {
      assert from + [] == from;
    } else if !Counts(components[0]) {
      WalkWithoutParents(from, components[1..]);
    } else {
      WalkWithoutParents(from + [components[0]], components[1..]);
      AppendAssociates(from, [components[0]], Counting(components[1..]));
    }
  }

  lemma {:induction false} CountingMembers(components: seq<string>, c: string)
    ensures c in Counting(components) <==> c in components && Counts(c)
  {
    if components != [] {
      CountingMembers(components[1..], c);
      assert components == [components[0]] + components[1..];
    }
  }

  /** A leading `./` is one more component, and one that does not count. */
  lemma PrefixDoesNotCount(s: string)
    ensures Parts(s) == Parts(RemovePrefix(s))
    ensures ".." in Components(s) <==> ".." in Components(RemovePrefix(s))
  {
    if StartsWith(s, "./") {
      var tail := Components(s[2..]);
      assert s[..2] == "./" && s[0] == s[..2][0] && s[1] == s[..2][1];
      assert s[1..][0] == '/' && s[1..][1..] == s[2..];
      var after := Components(s[1..]);
      assert after == [""] + tail;
      assert after[0] == "" && after[1..] == tail;
      assert [s[0]] + after[0] == ".";
      assert Components(s) == ["."] + tail;
      assert Components(s)[1..] == tail;
    }
  }

  lemma JoinedAbsolute(name: string)
    ensures IsAbsolute(RemovePrefix(name)) <==> (name != "" && name[0] == '/') || StartsWith(name, ".//")
  {
    if StartsWith(name, "./") {
      assert name[0] == name[..2][0] == '.';
      assert StartsWith(name[2..], "/") <==> |name| > 2 && name[2] == '/' by {
        if |name| > 2 { assert name[2..][..1] == [name[2]]; }
      }
      if |name| > 2 {
        assert name[..3] == name[..2] + [name[2]];
      }
    } else {
      assert StartsWith(name, "/") <==> name != "" && name[0] == '/' by {
        if name != "" { assert name[..1] == [name[0]]; }
      }
      if |name| >= 3 { assert name[..2] == name[..3][..2] && ".//"[..2] == "./"; }
    }
  }

  /** A member passes exactly when its name, resolved component by component, leads to or below an
      allowed root without a step upwards, and its type is known. A name is also refused when a slash
      follows a leading `./`, because the rest is then taken to be absolute. */
  lemma PassesExactly(member: Member, allowedRoots: set<string>)
    ensures Check(member, allowedRoots).Passed? <==>
              && !StartsWith(member.name, ".//")
              && ".." !in Components(member.name)
              && LeadsBelowRoot(member.name, allowedRoots)
              && !member.kind.IsOther?
  {
    WhereNamesLead(member.name);
  }

  /** Why a member is refused: with its own name, for a path that is absolute or has `..` in it; else
      for one that leads to no allowed root; else for its type. The destination itself, named by an
      empty name or a dot, with or without a leading `./`, is passed over. */
  lemma RefusalExactly(member: Member, allowedRoots: set<string>)
    ensures var name, verdict := member.name, Check(member, allowedRoots);
            var unsafe := (name != "" && name[0] == '/') || StartsWith(name, ".//") || ".." in Components(name);
            && (verdict.Skipped? <==> name in {"", ".", "./", "./."})
            && (verdict == Refused(UnsafePath(name)) <==> unsafe)
            && (verdict == Refused(UnexpectedPath(name)) <==>
                  !unsafe && name !in {"", ".", "./", "./."} && !LeadsBelowRoot(name, allowedRoots))
            && (verdict == Refused(UnsupportedType(name)) <==>
                  !unsafe && LeadsBelowRoot(name, allowedRoots) && member.kind.IsOther?)
  {
    var name := member.name;
    WhereNamesLead(name);
    SkippedNames(name);
  }

  lemma SkippedNames(name: string)
    ensures RemovePrefix(name) in {"", "."} <==> name in {"", ".", "./", "./."}
    ensures name in {"", ".", "./", "./."} ==> Parts(name) == [] && ".." !in Components(name)
    ensures name in {"", ".", "./", "./."} ==> !StartsWith(name, ".//") && !(name != "" && name[0] == '/')
  {
    if StartsWith(name, "./") {
      assert name == "./" + name[2..];
      assert name[2..] == "" ==> name == "./";
      assert name[2..] == "." ==> name == "./.";
    }
    DotHasNoParts();
    PrefixDoesNotCount(name);
  }

  /** What the code computes from a name and what the name means. */
  lemma WhereNamesLead(name: string)
    ensures Parts(name) == Parts(RemovePrefix(name))
    ensures ".." in Parts(name) <==> ".." in Components(name)
    ensures IsAbsolute(RemovePrefix(name)) <==> (name != "" && name[0] == '/') || StartsWith(name, ".//")
    ensures !(name != "" && name[0] == '/') && ".." !in Components(name) ==> Resolve(name) == At(Parts(name))
    ensures RemovePrefix(name) in {"", "."} ==> Parts(name) == []
  {
    PrefixDoesNotCount(name);
    JoinedAbsolute(name);
    CountingMembers(Components(name), "..");
    DotHasNoParts();
    if ".." !in Components(name) {
      WalkWithoutParents([], Components(name));
      assert [] + Parts(name) == Parts(name);
    }
  }

  lemma NotRefusedStaysInside(member: Member, allowedRoots: set<string>)
    requires !Refuses(member, allowedRoots)
    ensures StaysInside(member.name, allowedRoots)
  {
    WhereNamesLead(member.name);
    SkippedNames(member.name);
  }

  function JoinComponents(parts: seq<string>): string
    requires parts != []
  {
    if |parts| == 1 then parts[0] else parts[0] + "/" + JoinComponents(parts[1..])
  }

  /** The components are what lies between the slashes. */
  lemma {:induction false} ComponentsExact(s: string)
    ensures JoinComponents(Components(s)) == s
    ensures forall c | c in Components(s) :: '/' !in c
    decreases |s|
  {
    if s != "" {
      var rest := Components(s[1..]);
      ComponentsExact(s[1..]);
      assert s == [s[0]] + s[1..];
      if s[0] == '/' {
        assert ([""] + rest)[1..] == rest;
        assert JoinComponents(Components(s)) == "" + "/" + JoinComponents(rest);
      } else {
        var parts := [[s[0]] + rest[0]] + rest[1..];
        assert rest[0] in rest && parts[1..] == rest[1..];
        assert forall c | c in rest[1..] :: c in rest;
        if |rest| > 1 {
          assert JoinComponents(parts) == [s[0]] + rest[0] + "/" + JoinComponents(rest[1..]);
          AppendAssociates([s[0]] + rest[0], "/", JoinComponents(rest[1..]));
          AppendAssociates([s[0]], rest[0], "/" + JoinComponents(rest[1..]));
          AppendAssociates(rest[0], "/", JoinComponents(rest[1..]));
        }
      }
    }
  }

  lemma DotHasNoParts()
    ensures Parts("") == [] && Parts(".") == []
  {
    assert "."[1..] == "" && Components("")[1..] == [];
    assert ['.'] + Components("")[0] == ".";
    assert Components(".") == ["."];
  }
}
