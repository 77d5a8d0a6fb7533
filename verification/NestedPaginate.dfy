/** The rule that a paginate step contains no other paginate step, for source recipes and for the
    older pipeline definitions that are bridged into recipes. */
module NestedPaginate {
  import opened Sequences

  /** `K` lists the step types that have no steps inside. */
  datatype Step<K> = Paginate(steps: seq<Step<K>>) | Plain(kind: K)

  datatype RecipeKind =
    | FetchPage | ParseRss | ParseAtom | ExtractList | ExtractSingle | FollowLink | DownloadAsset | Dedupe

  datatype PipelineKind = PFetchPage | PExtractList | PExtractSingle | PFollowLink | PDownloadAsset

  datatype PathPart = Name(name: string) | Index(index: nat)

  type Path = seq<PathPart>

  // ----------------------------------------------------------------------- the finder

  /** What `findNestedPaginatePaths` collects from step `i` on. */
  function NestedPaths<K>(steps: seq<Step<K>>, allowPaginateHere: bool, path: Path, i: nat): seq<Path>
    requires i <= |steps|
    decreases steps, |steps| - i
  {
    if i == |steps| then []
    else PathsOf(steps[i], allowPaginateHere, path + [Index(i)]) + NestedPaths(steps, allowPaginateHere, path, i + 1)
  }

  function PathsOf<K>(step: Step<K>, allowed: bool, stepPath: Path): seq<Path>
    decreases step, 0
  {
    match step
    case Plain(_) => []
    case Paginate(inner) =>
      (if allowed then [] else [stepPath + [Name("type")]]) + NestedPaths(inner, false, stepPath + [Name("steps")], 0)
  }

  /** The finder, pushing onto a local list as it walks. */
  method FindNestedPaginatePaths<K>(steps: seq<Step<K>>, allowPaginateHere: bool, path: Path) returns (found: seq<Path>)
    ensures found == NestedPaths(steps, allowPaginateHere, path, 0)
    decreases steps
  {
    found := [];
    for i := 0 to |steps|
      invariant found + NestedPaths(steps, allowPaginateHere, path, i) == NestedPaths(steps, allowPaginateHere, path, 0)
    {
      AppendAssociates(found, PathsOf(steps[i], allowPaginateHere, path + [Index(i)]),
                       NestedPaths(steps, allowPaginateHere, path, i + 1));
      ghost var pushed := found + PathsOf(steps[i], allowPaginateHere, path + [Index(i)]);
      if steps[i].Paginate? {
        var stepPath := path + [Index(i)];
        if !allowPaginateHere {
          found := found + [stepPath + [Name("type")]];
        }
        var inside := FindNestedPaginatePaths(steps[i].steps, false, stepPath + [Name("steps")]);
        found := found + inside;
      }
      assert found == pushed;
    }
    assert found + [] == found;
  }

  // -------------------------------------------------------------------- what is found

  /** `pos` leads, one step number per level, to a paginate step. Only paginate steps have steps
      inside, so every step passed on the way is one too. */
  ghost predicate PaginateAt<K>(steps: seq<Step<K>>, pos: seq<nat>) {
    && pos != [] && pos[0] < |steps| && steps[pos[0]].Paginate?
    && (|pos| > 1 ==> PaginateAt(steps[pos[0]].steps, pos[1..]))
  }

  /** How an issue at `pos` names the place. */
  function IssuePath(path: Path, pos: seq<nat>): Path
    decreases |pos|
  {
    if pos == [] then path
    else if |pos| == 1 then path + [Index(pos[0])] + [Name("type")]
    else IssuePath(path + [Index(pos[0])] + [Name("steps")], pos[1..])
  }

  /** The positions behind the paths the finder collects from step `i` on. */
  ghost function Positions<K>(steps: seq<Step<K>>, allow: bool, i: nat): seq<seq<nat>>
    requires i <= |steps|
    decreases steps, |steps| - i
  {
    if i == |steps| then [] else PositionsOf(steps[i], allow, i) + Positions(steps, allow, i + 1)
  }

  ghost function PositionsOf<K>(step: Step<K>, allow: bool, i: nat): seq<seq<nat>>
    decreases step, 0
  {
    match step
    case Plain(_) => []
    case Paginate(inner) => (if allow then [] else [[i]]) + Under(i, Positions(inner, false, 0))
  }

  ghost function Under(i: nat, ps: seq<seq<nat>>): seq<seq<nat>> {
    seq(|ps|, k requires 0 <= k < |ps| => [i] + ps[k])
  }

  ghost predicate InOrder(ps: seq<seq<nat>>) {
    forall a, b | 0 <= a < b < |ps| :: Before(ps[a], ps[b])
  }

  /** `ps` lists, in document order and each once, the paginate steps at or after child `i`; the
      outermost ones only if they are not allowed there. */
  ghost predicate Lists<K>(steps: seq<Step<K>>, allow: bool, i: nat, ps: seq<seq<nat>>) {
    && InOrder(ps)
    && (forall pos :: pos in ps <==> PaginateAt(steps, pos) && pos[0] >= i && (allow ==> |pos| > 1))
  }

  lemma {:induction false} PositionsExact<K>(steps: seq<Step<K>>, allow: bool, i: nat)
    requires i <= |steps|
    ensures Lists(steps, allow, i, Positions(steps, allow, i))
    decreases steps, |steps| - i
  {
    if i < |steps| {
      PositionsExact(steps, allow, i + 1);
      if steps[i].Paginate? {
        PositionsExact(steps[i].steps, false, 0);
        OneMore(steps, allow, i, Positions(steps[i].steps, false, 0), Positions(steps, allow, i + 1));
      } else {
        NoneMore(steps, allow, i, Positions(steps, allow, i + 1));
      }
    }
  }

  lemma NoneMore<K>(steps: seq<Step<K>>, allow: bool, i: nat, after: seq<seq<nat>>)
    requires i < |steps| && steps[i].Plain? && Lists(steps, allow, i + 1, after)
    ensures Lists(steps, allow, i, [] + after)
  {
    assert [] + after == after;
  }

  lemma OneMore<K>(steps: seq<Step<K>>, allow: bool, i: nat, inside: seq<seq<nat>>, after: seq<seq<nat>>)
    requires i < |steps| && steps[i].Paginate?
    requires Lists(steps[i].steps, false, 0, inside) && Lists(steps, allow, i + 1, after)
    ensures Lists(steps, allow, i, (if allow then [] else [[i]]) + Under(i, inside) + after)
  {
    var self := if allow then [] else [[i]];
    var ps := self + Under(i, inside) + after;
    forall pos ensures pos in ps <==> PaginateAt(steps, pos) && pos[0] >= i && (allow ==> |pos| > 1) {
      MemberSplit(steps, i, inside, pos);
      assert pos in ps <==> pos in self || pos in Under(i, inside) || pos in after;
      assert pos in after <==> PaginateAt(steps, pos) && pos[0] >= i + 1 && (allow ==> |pos| > 1);
      assert pos in self <==> !allow && pos == [i];
      assert |pos| == 1 ==> pos == [pos[0]];
    }
    OrderSplit(i, self, inside, after);
  }

  /** The paginate steps under step `i` are step `i` itself and those its own steps lead to. */
  lemma MemberSplit<K>(steps: seq<Step<K>>, i: nat, inside: seq<seq<nat>>, pos: seq<nat>)
    requires i < |steps| && steps[i].Paginate? && Lists(steps[i].steps, false, 0, inside)
    ensures pos in Under(i, inside) <==> |pos| > 1 && pos[0] == i && PaginateAt(steps, pos)
    ensures pos == [i] ==> PaginateAt(steps, pos)
  {
    if pos in Under(i, inside) {
      var k :| 0 <= k < |inside| && Under(i, inside)[k] == pos;
      assert inside[k] in inside;
      assert pos[1..] == inside[k];
    }
    if |pos| > 1 && pos[0] == i && PaginateAt(steps, pos) {
      assert pos[1..] in inside;
      var k :| 0 <= k < |inside| && inside[k] == pos[1..];
      assert pos == [i] + pos[1..] == Under(i, inside)[k];
    }
  }

  lemma OrderSplit(i: nat, self: seq<seq<nat>>, inside: seq<seq<nat>>, after: seq<seq<nat>>)
    requires self == [] || self == [[i]]
    requires InOrder(inside) && InOrder(after)
    requires forall pos | pos in inside :: pos != []
    requires forall pos | pos in after :: pos != [] && pos[0] > i
    ensures InOrder(self + Under(i, inside) + after)
  {
    var ps := self + Under(i, inside) + after;
    var n, m := |self|, |self| + |inside|;
    forall a, b | 0 <= a < b < |ps| ensures Before(ps[a], ps[b]) {
      assert a >= n && a < m ==> ps[a] == [i] + inside[a - n] && ps[a][1..] == inside[a - n];
      assert b >= n && b < m ==> ps[b] == [i] + inside[b - n] && ps[b][1..] == inside[b - n] && inside[b - n] in inside;
      assert b >= m ==> ps[b] == after[b - m] && after[b - m] in after;
      assert a >= m ==> ps[a] == after[a - m];
      assert a < n ==> ps[a] == [i] && ps[a][1..] == [];
    }
  }

  ghost function IssuePaths(path: Path, ps: seq<seq<nat>>): seq<Path> {
    seq(|ps|, k requires 0 <= k < |ps| => IssuePath(path, ps[k]))
  }

  lemma IssuePathsAppend(path: Path, a: seq<seq<nat>>, b: seq<seq<nat>>)
    ensures IssuePaths(path, a + b) == IssuePaths(path, a) + IssuePaths(path, b)
  {}

  /** The collected paths spell out these positions, one for one. */
  lemma {:induction false} PathsArePositions<K>(steps: seq<Step<K>>, allow: bool, path: Path, i: nat)
    requires i <= |steps|
    ensures NestedPaths(steps, allow, path, i) == IssuePaths(path, Positions(steps, allow, i))
    decreases steps, |steps| - i
  {
    if i < |steps| {
      PathsArePositions(steps, allow, path, i + 1);
      IssuePathsAppend(path, PositionsOf(steps[i], allow, i), Positions(steps, allow, i + 1));
      if steps[i].Paginate? {
        PathsArePositions(steps[i].steps, false, path + [Index(i)] + [Name("steps")], 0);
        OwnPathsArePositions(steps[i], allow, path, i);
      }
    }
  }

  lemma OwnPathsArePositions<K>(step: Step<K>, allow: bool, path: Path, i: nat)
    requires step.Paginate?
    requires var inside := path + [Index(i)] + [Name("steps")];
             NestedPaths(step.steps, false, inside, 0) == IssuePaths(inside, Positions(step.steps, false, 0))
    ensures PathsOf(step, allow, path + [Index(i)]) == IssuePaths(path, PositionsOf(step, allow, i))
  {
    var self := if allow then [] else [[i]];
    var ps := Positions(step.steps, false, 0);
    IssuePathsAppend(path, self, Under(i, ps));
    InnerPositionsNotEmpty(step.steps);
    PathsUnder(path, i, ps);
    OwnPath(path, i);
    assert PositionsOf(step, allow, i) == self + Under(i, ps);
  }

  lemma InnerPositionsNotEmpty<K>(steps: seq<Step<K>>)
    ensures forall pos | pos in Positions(steps, false, 0) :: pos != []
  {
    PositionsExact(steps, false, 0);
  }

  lemma OwnPath(path: Path, i: nat)
    ensures IssuePaths(path, [[i]]) == [path + [Index(i)] + [Name("type")]]
    ensures IssuePaths(path, []) == []
  {}

  lemma PathsUnder(path: Path, i: nat, ps: seq<seq<nat>>)
    requires forall pos | pos in ps :: pos != []
    ensures IssuePaths(path, Under(i, ps)) == IssuePaths(path + [Index(i)] + [Name("steps")], ps)
  {
    forall k | 0 <= k < |ps|
      ensures IssuePath(path, Under(i, ps)[k]) == IssuePath(path + [Index(i)] + [Name("steps")], ps[k])
    {
      assert ps[k] in ps;
      assert Under(i, ps)[k][1..] == ps[k];
    }
  }

  lemma {:induction false} IssuePathStarts(path: Path, pos: seq<nat>)
    requires pos != []
    ensures |IssuePath(path, pos)| == |path| + 2 * |pos|
    ensures IssuePath(path, pos)[..|path|] == path && IssuePath(path, pos)[|path|] == Index(pos[0])
    ensures IssuePath(path, pos)[|path| + 1] == Name(if |pos| == 1 then "type" else "steps")
    decreases |pos|
  {
    if |pos| > 1 {
      var longer := path + [Index(pos[0])] + [Name("steps")];
      var whole := IssuePath(path, pos);
      IssuePathStarts(longer, pos[1..]);
      assert whole[..|longer|] == longer;
      assert longer[..|path|] == path && longer[|path|] == Index(pos[0]) && longer[|path| + 1] == Name("steps");
      assert whole[..|path|] == whole[..|longer|][..|path|];
      assert whole[|path|] == whole[..|longer|][|path|] && whole[|path| + 1] == whole[..|longer|][|path| + 1];
    }
  }

  /** A path names the step of each level and `steps` in between, and ends in `type`. */
  lemma {:induction false} IssuePathShape(path: Path, pos: seq<nat>, k: nat)
    requires k < |pos|
    ensures |IssuePath(path, pos)| == |path| + 2 * |pos| && IssuePath(path, pos)[..|path|] == path
    ensures IssuePath(path, pos)[|path| + 2 * k] == Index(pos[k])
    ensures IssuePath(path, pos)[|path| + 2 * k + 1] == Name(if k == |pos| - 1 then "type" else "steps")
    decreases |pos|
  {
    IssuePathStarts(path, pos);
    if k > 0 {
      IssuePathShape(path + [Index(pos[0])] + [Name("steps")], pos[1..], k - 1);
    }
  }

  /** No two places are named alike. */
  lemma {:induction false} IssuePathInjective(path: Path, a: seq<nat>, b: seq<nat>)
    requires a != [] && b != [] && IssuePath(path, a) == IssuePath(path, b)
    ensures a == b
    decreases |a|
  {
    IssuePathStarts(path, a);
    IssuePathStarts(path, b);
    if |a| > 1 {
      IssuePathInjective(path + [Index(a[0])] + [Name("steps")], a[1..], b[1..]);
      assert a == [a[0]] + a[1..] && b == [b[0]] + b[1..];
    } else {
      assert a == [a[0]] && b == [b[0]];
    }
  }

  /** A definition is reported exactly for its paginate steps that lie inside another one: one path
      each, no path twice, in document order. */
  lemma FinderExact<K>(steps: seq<Step<K>>, path: Path)
    ensures var ps := Positions(steps, true, 0);
            && InOrder(ps)
            && (forall pos :: pos in ps <==> PaginateAt(steps, pos) && |pos| > 1)
            && NestedPaths(steps, true, path, 0) == IssuePaths(path, ps)
    ensures Distinct(NestedPaths(steps, true, path, 0))
  {
    PositionsExact(steps, true, 0);
    PathsArePositions(steps, true, path, 0);
    var ps := Positions(steps, true, 0);
    forall a, b | 0 <= a < b < |ps| ensures IssuePath(path, ps[a]) != IssuePath(path, ps[b]) {
      assert ps[a] in ps && ps[b] in ps;
      BeforeIrreflexive(ps[a]);
      if IssuePath(path, ps[a]) == IssuePath(path, ps[b]) { IssuePathInjective(path, ps[a], ps[b]); }
    }
  }

  /** A definition is accepted exactly when every paginate step is at the top. */
  lemma AcceptedExactly<K>(steps: seq<Step<K>>, path: Path)
    ensures NestedPaths(steps, true, path, 0) == [] <==> forall pos | PaginateAt(steps, pos) :: |pos| == 1
  {
    var ps := Positions(steps, true, 0);
    FinderExact(steps, path);
    if ps != [] {
      assert ps[0] in ps;
    }
  }

  // ------------------------------------------------------------------ counts and depth

  function CountPaginates<K>(steps: seq<Step<K>>, i: nat): nat
    requires i <= |steps|
    decreases steps, |steps| - i
  {
    if i == |steps| then 0
    else
      (match steps[i] case Plain(_) => 0 case Paginate(inner) => 1 + CountPaginates(inner, 0))
      + CountPaginates(steps, i + 1)
  }

  function CountTopPaginates<K>(steps: seq<Step<K>>, i: nat): nat
    requires i <= |steps|
    decreases |steps| - i
  {
    if i == |steps| then 0 else (if steps[i].Paginate? then 1 else 0) + CountTopPaginates(steps, i + 1)
  }

  /** One issue for every paginate step that is not at the top. */
  lemma {:induction false} IssueCount<K>(steps: seq<Step<K>>, allow: bool, path: Path, i: nat)
    requires i <= |steps|
    ensures |NestedPaths(steps, allow, path, i)|
            == CountPaginates(steps, i) - (if allow then CountTopPaginates(steps, i) else 0)
    decreases steps, |steps| - i
  {
    if i < |steps| {
      IssueCount(steps, allow, path, i + 1);
      match steps[i]
      case Plain(_) =>
      case Paginate(inner) => IssueCount(inner, false, path + [Index(i)] + [Name("steps")], 0);
    }
  }

  /** How many levels of steps there are. */
  function Height<K>(steps: seq<Step<K>>, i: nat): nat
    requires i <= |steps|
    decreases steps, |steps| - i
  {
    if i == |steps| then 0
    else
      var here := match steps[i] case Plain(_) => 1 case Paginate(inner) => 1 + Height(inner, 0);
      var rest := Height(steps, i + 1);
      if here > rest then here else rest
  }

  lemma {:induction false} NoPaginateIsFlat<K>(steps: seq<Step<K>>, i: nat)
    requires i <= |steps| && CountPaginates(steps, i) == 0
    ensures Height(steps, i) <= 1
    decreases |steps| - i
  {
    if i < |steps| { NoPaginateIsFlat(steps, i + 1); }
  }

  /** An accepted definition has at most two levels. */
  lemma {:induction false} AcceptedIsShallow<K>(steps: seq<Step<K>>, path: Path, i: nat)
    requires i <= |steps| && NestedPaths(steps, true, path, i) == []
    ensures Height(steps, i) <= 2
    decreases |steps| - i
  {
    if i < |steps| {
      AcceptedIsShallow(steps, path, i + 1);
      match steps[i]
      case Plain(_) =>
      case Paginate(inner) =>
        var innerPath := path + [Index(i)] + [Name("steps")];
        IssueCount(inner, false, innerPath, 0);
        NoPaginateIsFlat(inner, 0);
    }
  }

  // ------------------------------------------------------------------------ the bridge

  function EmbedKind(k: PipelineKind): RecipeKind {
    match k
    case PFetchPage => FetchPage
    case PExtractList => ExtractList
    case PExtractSingle => ExtractSingle
    case PFollowLink => FollowLink
    case PDownloadAsset => DownloadAsset
  }

  /** A pipeline definition read as a recipe. */
  function Embed(steps: seq<Step<PipelineKind>>, i: nat): (r: seq<Step<RecipeKind>>)
    requires i <= |steps|
    ensures |r| == |steps| - i
    decreases steps, |steps| - i
  {
    if i == |steps| then []
    else
      [match steps[i] case Plain(k) => Plain(EmbedKind(k)) case Paginate(inner) => Paginate(Embed(inner, 0))]
      + Embed(steps, i + 1)
  }

  lemma {:induction false} EmbedAt(steps: seq<Step<PipelineKind>>, i: nat, k: nat)
    requires i <= k < |steps|
    ensures Embed(steps, i)[k - i] ==
            match steps[k] case Plain(kind) => Plain(EmbedKind(kind)) case Paginate(inner) => Paginate(Embed(inner, 0))
    decreases k - i
  {
    if i < k { EmbedAt(steps, i + 1, k); }
  }

  /** Bridging a pipeline into a recipe neither adds nor loses an issue. */
  lemma {:induction false} EmbeddingKeepsIssues(steps: seq<Step<PipelineKind>>, allow: bool, path: Path, i: nat)
    requires i <= |steps|
    ensures NestedPaths(Embed(steps, 0), allow, path, i) == NestedPaths(steps, allow, path, i)
    decreases steps, |steps| - i
  {
    if i < |steps| {
      EmbedAt(steps, 0, i);
      EmbeddingKeepsIssues(steps, allow, path, i + 1);
      match steps[i]
      case Plain(_) =>
      case Paginate(inner) => EmbeddingKeepsIssues(inner, false, path + [Index(i)] + [Name("steps")], 0);
    }
  }
}
