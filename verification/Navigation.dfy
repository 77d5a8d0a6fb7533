/** Space-scoped paths of the web application, and reading a scoped path back. */
module Navigation {
  import opened Options
  import opened Strings

  const USER_SCOPED_PREFIXES: seq<string> := [
    "/home", "/settings", "/instance-settings", "/runtime-tools", "/cli-profiles", "/time", "/cards", "/evolution",
    "/login"
  ]

  const SPACES := "/spaces/"

  datatype Scene = Scene(id: string, segments: seq<string>)

  const SCENES: seq<Scene> := [
    Scene("inbox", ["activity"]),
    Scene("library", ["library"]),
    Scene("review", ["proposals", "memory"]),
    Scene("agents", ["agents", "agent-groups", "sessions", "runs", "automations", "capabilities"]),
    Scene("workspaces", ["workspaces", "workspace-console", "artifacts"])
  ]

  datatype RouteScope = HomeScope | SpaceScope

  predicate IsUserScopedPath(path: string) {
    exists p | p in USER_SCOPED_PREFIXES :: path == p || StartsWith(path, p + "/")
  }

  function SpacePath(spaceId: Option<string>, to: string): string {
    if !StartsWith(to, "/") then to
    else if StartsWith(to, SPACES) then to
    else if IsUserScopedPath(to) then to
    else if spaceId.None? || spaceId.value == "" then to
    else SPACES + spaceId.value + to
  }

  function FirstSlash(s: string): (n: nat)
    ensures n <= |s| && (n < |s| ==> s[n] == '/') && '/' !in s[..n]
  {
    if s == "" || s[0] == '/' then 0
    else
      var n := FirstSlash(s[1..]);
      assert s[..1 + n] == [s[0]] + s[1..][..n];
      1 + n
  }

  /** `/^\/spaces\/[^/]+(\/.*)?$/`: a non-empty id, then the end or a slash and one line of text. */
  function StripSpacePrefix(pathname: string): string {
    if !StartsWith(pathname, SPACES) then pathname
    else
      var rest := pathname[|SPACES|..];
      var n := FirstSlash(rest);
      if n == 0 then pathname
      else if n == |rest| then "/"
      else if HasLineBreak(rest[n + 1..]) then pathname
      else rest[n..]
  }

  function DropSlashes(s: string): string {
    if s != "" && s[0] == '/' then DropSlashes(s[1..]) else s
  }

  function FirstSegment(pathname: string): string {
    var s := DropSlashes(pathname);
    s[..FirstSlash(s)]
  }

  function FindScene(seg: string, i: nat): Option<Scene>
    requires i <= |SCENES|
    decreases |SCENES| - i
  {
    if i == |SCENES| then None else if seg in SCENES[i].segments then Some(SCENES[i]) else FindScene(seg, i + 1)
  }

  function SceneForPath(pathname: string): Option<Scene> {
    var seg := FirstSegment(StripSpacePrefix(pathname));
    if seg == "" then None else FindScene(seg, 0)
  }

  function RouteScopeForPath(pathname: string): RouteScope {
    if StartsWith(pathname, SPACES) then SpaceScope else HomeScope
  }

  // -------------------------------------------------------------------------- lemmas

  /** A logical path that belongs inside a space. */
  predicate InSpace(to: string) {
    StartsWith(to, "/") && !StartsWith(to, SPACES) && !IsUserScopedPath(to)
  }

  /** The first slash of a text whose first slash lies in `b`. */
  lemma {:induction false} FirstSlashAt(a: string, b: string)
    requires '/' !in a && b != "" && b[0] == '/'
    ensures FirstSlash(a + b) == |a|
  {
    if a == "" {
      assert a + b == b;
    } else {
      assert a[0] in a && (a + b)[1..] == a[1..] + b;
      FirstSlashAt(a[1..], b);
    }
  }

  lemma StripFromSlashFreeId(id: string, to: string)
    requires id != "" && '/' !in id && to != "" && to[0] == '/'
    ensures StripSpacePrefix(SPACES + id + to) == if HasLineBreak(to) then SPACES + id + to else to
  {
    var scoped := SPACES + id + to;
    assert scoped == SPACES + (id + to);
    assert scoped[..|SPACES|] == SPACES && scoped[|SPACES|..] == id + to;
    FirstSlashAt(id, to);
    assert (id + to)[|id|..] == to && (id + to)[|id| + 1..] == to[1..];
    LineBreakAfterSlash(to);
  }

  lemma StripFromIdWithSlash(id: string, to: string)
    requires '/' in id
    ensures |StripSpacePrefix(SPACES + id + to)| > |to|
  {
    var scoped := SPACES + id + to;
    assert scoped == SPACES + (id + to);
    assert scoped[..|SPACES|] == SPACES && scoped[|SPACES|..] == id + to;
    SlashInId(id, to);
  }

  /** Stripping undoes scoping exactly for ids without a slash and paths on one line. */
  lemma StripUndoesSpacePath(id: string, to: string)
    requires id != "" && InSpace(to)
    ensures StripSpacePrefix(SpacePath(Some(id), to)) == to <==> '/' !in id && !HasLineBreak(to)
  {
    if '/' !in id {
      StripFromSlashFreeId(id, to);
    } else {
      StripFromIdWithSlash(id, to);
    }
  }

  lemma LineBreakAfterSlash(to: string)
    requires to != "" && to[0] == '/'
    ensures HasLineBreak(to) <==> HasLineBreak(to[1..])
  {
    if i :| 0 <= i < |to| && IsLineBreak(to[i]) {
      assert to[1..][i - 1] == to[i];
    }
    if i :| 0 <= i < |to[1..]| && IsLineBreak(to[1..][i]) {
      assert to[i + 1] == to[1..][i];
    }
  }

  lemma {:induction false} SlashInId(id: string, to: string)
    requires '/' in id
    ensures FirstSlash(id + to) < |id|
  {
    if id[0] != '/' {
      assert (id + to)[1..] == id[1..] + to;
      SlashInId(id[1..], to);
    }
  }

  /** Scoping twice is scoping once, with the first id that is not empty. */
  lemma FirstIdWins(a: Option<string>, b: Option<string>, to: string)
    ensures SpacePath(b, SpacePath(a, to)) == SpacePath(if a.Some? && a.value != "" then a else b, to)
  {
    if InSpace(to) && a.Some? && a.value != "" {
      assert (SPACES + a.value + to)[..|SPACES|] == SPACES;
      assert StartsWith(SPACES, "/");
    }
  }

  /** A path leads to the same scene before and after scoping. */
  lemma SceneUnchangedByScoping(id: string, to: string)
    requires '/' !in id && !HasLineBreak(to)
    ensures SceneForPath(SpacePath(Some(id), to)) == SceneForPath(to)
  {
    if id != "" && InSpace(to) {
      StripUndoesSpacePath(id, to);
    }
  }

  /** The result is a space route exactly when the path already was one or has become one. */
  lemma ScopeOfSpacePath(spaceId: Option<string>, to: string)
    ensures RouteScopeForPath(SpacePath(spaceId, to)) == SpaceScope <==>
              StartsWith(to, SPACES) || (InSpace(to) && spaceId.Some? && spaceId.value != "")
  {
    if InSpace(to) && spaceId.Some? && spaceId.value != "" {
      assert (SPACES + spaceId.value + to)[..|SPACES|] == SPACES;
    }
  }

  /** `p` is a slash and then a name without one. */
  ghost predicate TopLevel(p: string) {
    p != "" && p[0] == '/' && forall k | 0 < k < |p| :: p[k] != '/' && p[k] != '?' && p[k] != '#'
  }

  lemma ShortPrefixesAreTopLevel(p: string)
    requires p in USER_SCOPED_PREFIXES && |p| < 10
    ensures TopLevel(p)
  {}

  lemma LongPrefixesAreTopLevel(p: string)
    requires p in USER_SCOPED_PREFIXES && |p| >= 10
    ensures TopLevel(p)
  {}

  lemma PrefixesAreTopLevel(p: string)
    requires p in USER_SCOPED_PREFIXES
    ensures TopLevel(p)
  {
    if |p| < 10 {
      ShortPrefixesAreTopLevel(p);
    } else {
      LongPrefixesAreTopLevel(p);
    }
  }

  lemma NotUnder(p: string, other: string, to: string)
    requires TopLevel(p) && TopLevel(other) && StartsWith(to, p) && |p| < |to| && (to[|p|] == '?' || to[|p|] == '#')
    ensures to != other && !StartsWith(to, other + "/")
  {
    assert forall k | 0 <= k < |p| :: to[k] == to[..|p|][k] == p[k];
    if StartsWith(to, other + "/") {
      assert to[..|other| + 1][|other|] == '/';
      assert forall k | 0 <= k < |other| :: to[k] == to[..|other| + 1][k] == other[k];
    }
  }

  /** The paths outside a space are meant to stay as they are, queries included. They do so without a
      query; with a query or a fragment they do exactly when they are not themselves one of the listed
      prefixes. Those are moved into the space. */
  lemma QueryHidesTopLevelPath(id: string, p: string, rest: string)
    requires id != "" && IsUserScopedPath(p) && rest != "" && (rest[0] == '?' || rest[0] == '#')
    ensures SpacePath(Some(id), p) == p
    ensures SpacePath(Some(id), p + rest) == p + rest <==> p !in USER_SCOPED_PREFIXES
    ensures p in USER_SCOPED_PREFIXES ==> SpacePath(Some(id), p + rest) == SPACES + id + (p + rest)
  {
    if p in USER_SCOPED_PREFIXES {
      ListedPathWithQuery(p, rest);
      assert |SPACES + id + (p + rest)| > |p + rest|;
    } else {
      var q :| q in USER_SCOPED_PREFIXES && (p == q || StartsWith(p, q + "/"));
      assert (p + rest)[..|q + "/"|] == p[..|q + "/"|];
    }
  }

  lemma ListedPathWithQuery(p: string, rest: string)
    requires p in USER_SCOPED_PREFIXES && rest != "" && (rest[0] == '?' || rest[0] == '#')
    ensures InSpace(p + rest)
  {
    var to := p + rest;
    PrefixesAreTopLevel(p);
    assert to[..|p|] == p && to[|p|] == rest[0];
    forall other | other in USER_SCOPED_PREFIXES ensures to != other && !StartsWith(to, other + "/") {
      PrefixesAreTopLevel(other);
      NotUnder(p, other, to);
    }
    assert TopLevel("/spaces");
    NotUnder(p, "/spaces", to);
    assert "/spaces" + "/" == SPACES;
  }

  /** Exactly the listed prefixes, alone or followed by a slash, paths of a space, and what does not
      begin with a slash are left as they are; every other path is moved into the space. */
  lemma UnchangedExactly(id: string, to: string)
    requires id != ""
    ensures var stays := || to == "" || to[0] != '/' || StartsWith(to, "/spaces/")
                         || exists p | p in USER_SCOPED_PREFIXES :: to == p || StartsWith(to, p + "/");
            && (SpacePath(Some(id), to) == to <==> stays)
            && (!stays ==> SpacePath(Some(id), to) == "/spaces/" + id + to)
  {
    assert StartsWith(to, "/") <==> to != "" && to[0] == '/' by {
      if to != "" { assert to[..1] == [to[0]]; }
    }
    assert |SPACES + id + to| > |to|;
  }

  /** Without a space nothing is moved. */
  lemma UnchangedWithoutSpace(to: string)
    ensures SpacePath(None, to) == to && SpacePath(Some(""), to) == to
  {}

  // --------------------------------------------------------------- stripping and scenes

  /** A space's own address strips to the root; what is no space path stays. */
  lemma StripsToRoot(id: string)
    requires '/' !in id
    ensures id != "" ==> StripSpacePrefix("/spaces/" + id) == "/"
    ensures id == "" ==> StripSpacePrefix("/spaces/" + id) == "/spaces/"
    ensures forall path | !StartsWith(path, "/spaces/") :: StripSpacePrefix(path) == path
  {
    var path := "/spaces/" + id;
    assert path[..8] == "/spaces/" && path[8..] == id;
    NoSlash(id);
  }

  lemma {:induction false} NoSlash(s: string)
    requires '/' !in s
    ensures FirstSlash(s) == |s|
  {
    if s != "" {
      assert s[0] in s;
      NoSlash(s[1..]);
    }
  }

  predicate OnlySlashes(s: string) {
    forall k | 0 <= k < |s| :: s[k] == '/'
  }

  lemma {:induction false} DropsSlashes(slashes: string, s: string)
    requires OnlySlashes(slashes) && (s == "" || s[0] != '/')
    ensures DropSlashes(slashes + s) == s
  {
    if slashes == "" {
      assert slashes + s == s;
    } else {
      assert (slashes + s)[1..] == slashes[1..] + s;
      DropsSlashes(slashes[1..], s);
    }
  }

  /** The first segment is the text between the leading slashes and the next one. */
  lemma FirstSegmentExact(slashes: string, seg: string, rest: string)
    requires OnlySlashes(slashes) && '/' !in seg && (rest == "" || (rest[0] == '/' && seg != ""))
    ensures FirstSegment(slashes + seg + rest) == seg
  {
    assert slashes + seg + rest == slashes + (seg + rest);
    assert seg != "" ==> seg[0] in seg;
    DropsSlashes(slashes, seg + rest);
    if rest == "" {
      assert seg + rest == seg;
      NoSlash(seg);
    } else {
      FirstSlashAt(seg, rest);
    }
    assert (seg + rest)[..|seg|] == seg;
  }

  lemma {:induction false} FindSceneExact(seg: string, i: nat)
    requires i <= |SCENES|
    ensures FindScene(seg, i).Some? ==>
              exists k :: && i <= k < |SCENES| && FindScene(seg, i) == Some(SCENES[k]) && seg in SCENES[k].segments
                          && forall m | i <= m < k :: seg !in SCENES[m].segments
    ensures FindScene(seg, i).None? ==> forall k | i <= k < |SCENES| :: seg !in SCENES[k].segments
    decreases |SCENES| - i
  {
    if i < |SCENES| && seg !in SCENES[i].segments {
      FindSceneExact(seg, i + 1);
    }
  }

  /** A path outside `/spaces/` has the first scene that lists its first segment, and no scene exactly
      when none does. */
  lemma SceneExact(slashes: string, seg: string, rest: string)
    requires OnlySlashes(slashes) && seg != "" && '/' !in seg && (rest == "" || rest[0] == '/')
    requires !StartsWith(slashes + seg + rest, SPACES)
    ensures var scene := SceneForPath(slashes + seg + rest);
            && (scene.None? <==> forall k | 0 <= k < |SCENES| :: seg !in SCENES[k].segments)
            && (scene.Some? ==>
                  exists k :: && 0 <= k < |SCENES| && scene.value == SCENES[k] && seg in SCENES[k].segments
                              && forall m | 0 <= m < k :: seg !in SCENES[m].segments)
  {
    FirstSegmentExact(slashes, seg, rest);
    FindSceneExact(seg, 0);
  }

  /** The root has no scene, and neither has a space's own address. */
  lemma NoSceneAtRoot(id: string)
    requires id != "" && '/' !in id
    ensures SceneForPath("/").None? && SceneForPath("/spaces/" + id).None?
  {
    StripsToRoot(id);
    FirstSegmentExact("/", "", "");
    assert "/" + "" + "" == "/";
    assert !StartsWith("/", SPACES);
  }
}
