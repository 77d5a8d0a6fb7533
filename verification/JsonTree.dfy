/** JSON values, positions in them, and the first fault in document order. */
module JsonTree {
  import opened Options
  import opened Sequences
  import opened Strings

  datatype Entry = Entry(key: string, value: Json)

  /** Object entries are listed in the order in which `Object.entries` gives them. */
  datatype Json =
    | Null
    | Bool(flag: bool)
    | Number(number: real)
    | Str(text: string)
    | Array(items: seq<Json>)
    | Object(entries: seq<Entry>)

  function Size(v: Json): nat {
    match v
    case Array(items) => |items|
    case Object(entries) => |entries|
    case _ => 0
  }

  function Child(v: Json, i: nat): (c: Json)
    requires i < Size(v)
    ensures c < v
  {
    match v
    case Array(items) => items[i]
    case Object(entries) => entries[i].value
  }

  /** What the path of a finding says about the step to child `i`. */
  function Label(v: Json, i: nat): string
    requires i < Size(v)
  {
    match v
    case Array(_) => Decimal(i)
    case Object(entries) => entries[i].key
  }

  // ---------------------------------------------------------------------- positions

  /** `pos` leads from `v` to a node, one child number per level. */
  ghost predicate Reaches(v: Json, pos: seq<nat>) {
    pos == [] || (pos[0] < Size(v) && Reaches(Child(v, pos[0]), pos[1..]))
  }

  ghost function NodeAt(v: Json, pos: seq<nat>): Json
    requires Reaches(v, pos)
  {
    if pos == [] then v else NodeAt(Child(v, pos[0]), pos[1..])
  }

  ghost function Labels(v: Json, pos: seq<nat>): seq<string>
    requires Reaches(v, pos)
  {
    if pos == [] then [] else [Label(v, pos[0])] + Labels(Child(v, pos[0]), pos[1..])
  }

  /** A fault is a bad node, or a bad key, at the position of the entry it belongs to. */
  datatype Fault = Fault(pos: seq<nat>, atKey: bool)

  ghost predicate FaultBefore(a: Fault, b: Fault) {
    Before(a.pos, b.pos) || (a.pos == b.pos && a.atKey && !b.atKey)
  }

  ghost predicate IsFault(v: Json, depth: nat, f: Fault, badKey: string -> bool, badNode: (Json, nat) -> bool) {
    if f.pos == [] then !f.atKey && badNode(v, depth)
    else
      && f.pos[0] < Size(v)
      && if |f.pos| == 1 && f.atKey then v.Object? && badKey(v.entries[f.pos[0]].key)
         else IsFault(Child(v, f.pos[0]), depth + 1, Fault(f.pos[1..], f.atKey), badKey, badNode)
  }

  /** The same, said through the node the position leads to. */
  lemma {:induction false} FaultMeaning(v: Json, depth: nat, f: Fault, badKey: string -> bool,
                                        badNode: (Json, nat) -> bool)
    ensures !f.atKey ==> (IsFault(v, depth, f, badKey, badNode) <==>
                            Reaches(v, f.pos) && badNode(NodeAt(v, f.pos), depth + |f.pos|))
    ensures f.atKey ==> (IsFault(v, depth, f, badKey, badNode) <==>
                           && f.pos != [] && Reaches(v, f.pos[..|f.pos| - 1])
                           && var parent := NodeAt(v, f.pos[..|f.pos| - 1]);
                              parent.Object? && f.pos[|f.pos| - 1] < |parent.entries|
                              && badKey(parent.entries[f.pos[|f.pos| - 1]].key))
    decreases |f.pos|
  {
    var pos := f.pos;
    if pos != [] && pos[0] < Size(v) {
      if !(|pos| == 1 && f.atKey) {
        FaultMeaning(Child(v, pos[0]), depth + 1, Fault(pos[1..], f.atKey), badKey, badNode);
        if f.atKey {
          assert pos[1..][..|pos[1..]| - 1] == pos[..|pos| - 1][1..];
        }
      }
    }
  }

  // ------------------------------------------------------------------ the first fault

  function First(v: Json, depth: nat, badKey: string -> bool, badNode: (Json, nat) -> bool): Option<Fault>
    decreases v, Size(v) + 1
  {
    if badNode(v, depth) then Some(Fault([], false)) else FirstFrom(v, depth, 0, badKey, badNode)
  }

  function FirstFrom(v: Json, depth: nat, i: nat, badKey: string -> bool, badNode: (Json, nat) -> bool): Option<Fault>
    requires i <= Size(v)
    decreases v, Size(v) - i
  {
    if i == Size(v) then None
    else if v.Object? && badKey(v.entries[i].key) then Some(Fault([i], true))
    else match First(Child(v, i), depth + 1, badKey, badNode)
         case Some(f) => Some(Fault([i] + f.pos, f.atKey))
         case None => FirstFrom(v, depth, i + 1, badKey, badNode)
  }

  /** `f` is a fault from child `i` on, and no other such fault comes before it. */
  ghost predicate IsFirstFrom(v: Json, depth: nat, i: nat, f: Fault, badKey: string -> bool,
                              badNode: (Json, nat) -> bool) {
    && IsFault(v, depth, f, badKey, badNode) && f.pos != [] && f.pos[0] >= i
    && forall g | IsFault(v, depth, g, badKey, badNode) && g.pos != [] && g.pos[0] >= i :: g == f || FaultBefore(f, g)
  }

  ghost predicate NoFault(v: Json, depth: nat, badKey: string -> bool, badNode: (Json, nat) -> bool) {
    forall f :: !IsFault(v, depth, f, badKey, badNode)
  }

  ghost predicate NoFaultFrom(v: Json, depth: nat, i: nat, badKey: string -> bool, badNode: (Json, nat) -> bool) {
    forall f | IsFault(v, depth, f, badKey, badNode) && f.pos != [] :: f.pos[0] < i
  }

  ghost predicate IsFirst(v: Json, depth: nat, f: Fault, badKey: string -> bool, badNode: (Json, nat) -> bool) {
    && IsFault(v, depth, f, badKey, badNode)
    && forall g | IsFault(v, depth, g, badKey, badNode) :: g == f || FaultBefore(f, g)
  }

  /** The search finds nothing exactly when there is no fault, and otherwise the first one. */
  lemma {:induction false} FirstExact(v: Json, depth: nat, badKey: string -> bool, badNode: (Json, nat) -> bool)
    ensures First(v, depth, badKey, badNode).None? <==> NoFault(v, depth, badKey, badNode)
    ensures First(v, depth, badKey, badNode).Some? ==>
              IsFirst(v, depth, First(v, depth, badKey, badNode).value, badKey, badNode)
    decreases v, Size(v) + 1
  {
    if badNode(v, depth) {
      assert IsFault(v, depth, Fault([], false), badKey, badNode);
      forall g | IsFault(v, depth, g, badKey, badNode)
        ensures g == Fault([], false) || FaultBefore(Fault([], false), g) {}
    } else {
      FirstFromExact(v, depth, 0, badKey, badNode);
    }
  }

  lemma {:induction false} FirstFromExact(v: Json, depth: nat, i: nat, badKey: string -> bool,
                                          badNode: (Json, nat) -> bool)
    requires i <= Size(v)
    ensures FirstFrom(v, depth, i, badKey, badNode).None? <==> NoFaultFrom(v, depth, i, badKey, badNode)
    ensures FirstFrom(v, depth, i, badKey, badNode).Some? ==>
              IsFirstFrom(v, depth, i, FirstFrom(v, depth, i, badKey, badNode).value, badKey, badNode)
    decreases v, Size(v) - i
  {
    if i == Size(v) {
      AllChildrenPassed(v, depth, badKey, badNode);
    } else if v.Object? && badKey(v.entries[i].key) {
      KeyIsFirst(v, depth, i, badKey, badNode);
    } else {
      FirstExact(Child(v, i), depth + 1, badKey, badNode);
      match First(Child(v, i), depth + 1, badKey, badNode)
      case Some(f) => ChildIsFirst(v, depth, i, f, badKey, badNode);
      case None =>
        FirstFromExact(v, depth, i + 1, badKey, badNode);
        NothingAt(v, depth, i, badKey, badNode);
    }
  }

  lemma AllChildrenPassed(v: Json, depth: nat, badKey: string -> bool, badNode: (Json, nat) -> bool)
    ensures NoFaultFrom(v, depth, Size(v), badKey, badNode)
  {}

  lemma KeyIsFirst(v: Json, depth: nat, i: nat, badKey: string -> bool, badNode: (Json, nat) -> bool)
    requires i < Size(v) && v.Object? && badKey(v.entries[i].key)
    ensures IsFirstFrom(v, depth, i, Fault([i], true), badKey, badNode)
    ensures !NoFaultFrom(v, depth, i, badKey, badNode)
  {
    var f := Fault([i], true);
    forall g | IsFault(v, depth, g, badKey, badNode) && g.pos != [] && g.pos[0] >= i
      ensures g == f || FaultBefore(f, g)
    {
      if g.pos[0] == i {
        if |g.pos| == 1 {
          assert g.pos == [i];
        } else {
          assert Before([i][1..], g.pos[1..]);
        }
      }
    }
  }

  /** Faults under child `i` of a node whose entry `i` has no bad key are the child's own. */
  lemma UnderChild(v: Json, depth: nat, i: nat, g: Fault, badKey: string -> bool, badNode: (Json, nat) -> bool)
    requires i < Size(v) && !(v.Object? && badKey(v.entries[i].key)) && g.pos != [] && g.pos[0] == i
    requires IsFault(v, depth, g, badKey, badNode)
    ensures IsFault(Child(v, i), depth + 1, Fault(g.pos[1..], g.atKey), badKey, badNode)
  {}

  lemma ChildIsFirst(v: Json, depth: nat, i: nat, f: Fault, badKey: string -> bool, badNode: (Json, nat) -> bool)
    requires i < Size(v) && !(v.Object? && badKey(v.entries[i].key))
    requires IsFirst(Child(v, i), depth + 1, f, badKey, badNode)
    ensures IsFirstFrom(v, depth, i, Fault([i] + f.pos, f.atKey), badKey, badNode)
    ensures !NoFaultFrom(v, depth, i, badKey, badNode)
  {
    var h := Fault([i] + f.pos, f.atKey);
    assert h.pos[1..] == f.pos;
    assert IsFault(v, depth, h, badKey, badNode);
    forall g | IsFault(v, depth, g, badKey, badNode) && g.pos != [] && g.pos[0] >= i
      ensures g == h || FaultBefore(h, g)
    {
      if g.pos[0] == i {
        UnderChild(v, depth, i, g, badKey, badNode);
        var rest := Fault(g.pos[1..], g.atKey);
        assert rest == f || FaultBefore(f, rest);
        assert g.pos == [i] + g.pos[1..];
      }
    }
  }

  lemma NothingAt(v: Json, depth: nat, i: nat, badKey: string -> bool, badNode: (Json, nat) -> bool)
    requires i < Size(v) && !(v.Object? && badKey(v.entries[i].key))
    requires NoFault(Child(v, i), depth + 1, badKey, badNode)
    ensures NoFaultFrom(v, depth, i, badKey, badNode) <==> NoFaultFrom(v, depth, i + 1, badKey, badNode)
    ensures forall f | IsFirstFrom(v, depth, i + 1, f, badKey, badNode) :: IsFirstFrom(v, depth, i, f, badKey, badNode)
  {
    forall g | IsFault(v, depth, g, badKey, badNode) && g.pos != [] ensures g.pos[0] != i {
      if g.pos[0] == i {
        UnderChild(v, depth, i, g, badKey, badNode);
      }
    }
  }
}
