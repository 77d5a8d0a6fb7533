/** The check of object-kind configuration: depth, array length, and keys that name code. */
module ObjectKindConfig {
  import opened Options
  import opened Strings
  import opened JsonTree
  import opened KeyTokens

  const MAX_DEPTH: nat := 8
  const MAX_ITEMS: nat := 200

  // -------------------------------------------------------------------- the whole check

  datatype Violation = TooDeep(path: string) | TooManyEntries(path: string) | KeyNotAllowed(path: string)

  function ObjectKindConfigViolation(value: Json, path: string, depth: nat): Option<Violation>
    decreases value, Size(value) + 1
  {
    if depth > MAX_DEPTH then Some(TooDeep(path))
    else match value
      case Array(items) =>
        if |items| > MAX_ITEMS then Some(TooManyEntries(path)) else ViolationInItems(value, path, depth, 0)
      case Object(_) => ViolationInEntries(value, path, depth, 0)
      case _ => None
  }

  function ViolationInItems(value: Json, path: string, depth: nat, i: nat): Option<Violation>
    requires value.Array? && i <= |value.items|
    decreases value, Size(value) - i
  {
    if i == |value.items| then None
    else
      var violation := ObjectKindConfigViolation(value.items[i], path + "[" + Decimal(i) + "]", depth + 1);
      if violation.Some? then violation else ViolationInItems(value, path, depth, i + 1)
  }

  function ViolationInEntries(value: Json, path: string, depth: nat, i: nat): Option<Violation>
    requires value.Object? && i <= |value.entries|
    decreases value, Size(value) - i
  {
    if i == |value.entries| then None
    else
      var key := value.entries[i].key;
      if UnsafeKey(key) then Some(KeyNotAllowed(path + "." + key))
      else
        var violation := ObjectKindConfigViolation(value.entries[i].value, path + "." + key, depth + 1);
        if violation.Some? then violation else ViolationInEntries(value, path, depth, i + 1)
  }

  function IsUnsafe(): string -> bool {
    (key: string) => UnsafeKey(key)
  }

  predicate TooLong(v: Json) {
    v.Array? && |v.items| > MAX_ITEMS
  }

  function IsTooLarge(): (Json, nat) -> bool {
    (v: Json, depth: nat) => depth > MAX_DEPTH || TooLong(v)
  }

  /** The path text of child `i` of the node whose path text is `path`. */
  function ChildPath(v: Json, path: string, i: nat): string
    requires i < Size(v)
  {
    if v.Array? then path + "[" + Decimal(i) + "]" else path + "." + Label(v, i)
  }

  /** The text that names the place `pos` in a message. */
  ghost function PathText(v: Json, path: string, pos: seq<nat>): string
    requires Reaches(v, pos)
  {
    if pos == [] then path else PathText(Child(v, pos[0]), ChildPath(v, path, pos[0]), pos[1..])
  }

  /** `found` is the message for the fault `first`. */
  ghost predicate Tells(v: Json, path: string, depth: nat, found: Option<Violation>, first: Option<Fault>) {
    match first
    case None => found.None?
    case Some(f) =>
      Reaches(v, f.pos) && found == Some(
        if f.atKey then KeyNotAllowed(PathText(v, path, f.pos))
        else if depth + |f.pos| > 8 then TooDeep(PathText(v, path, f.pos))
        else TooManyEntries(PathText(v, path, f.pos)))
  }

  lemma {:induction false} ViolationIsFirst(value: Json, path: string, depth: nat)
    ensures Tells(value, path, depth, ObjectKindConfigViolation(value, path, depth),
                  First(value, depth, IsUnsafe(), IsTooLarge()))
    decreases value, Size(value) + 1
  {
    if depth <= MAX_DEPTH && !TooLong(value) {
      if value.Array? {
        ItemsAreFirst(value, path, depth, 0);
      } else if value.Object? {
        EntriesAreFirst(value, path, depth, 0);
      }
    }
  }

  lemma {:induction false} ItemsAreFirst(value: Json, path: string, depth: nat, i: nat)
    requires value.Array? && i <= Size(value)
    ensures Tells(value, path, depth, ViolationInItems(value, path, depth, i),
                  FirstFrom(value, depth, i, IsUnsafe(), IsTooLarge()))
    decreases value, Size(value) - i
  {
    if i < Size(value) {
      ViolationIsFirst(value.items[i], ChildPath(value, path, i), depth + 1);
      match First(Child(value, i), depth + 1, IsUnsafe(), IsTooLarge())
      case Some(f) => TellsDown(value, path, depth, i, ViolationInItems(value, path, depth, i), f);
      case None => ItemsAreFirst(value, path, depth, i + 1);
    }
  }

  lemma {:induction false} EntriesAreFirst(value: Json, path: string, depth: nat, i: nat)
    requires value.Object? && i <= Size(value)
    ensures Tells(value, path, depth, ViolationInEntries(value, path, depth, i),
                  FirstFrom(value, depth, i, IsUnsafe(), IsTooLarge()))
    decreases value, Size(value) - i
  {
    if i < Size(value) {
      if UnsafeKey(value.entries[i].key) {
        TellsKey(value, path, depth, i);
      } else {
        ViolationIsFirst(value.entries[i].value, ChildPath(value, path, i), depth + 1);
        match First(Child(value, i), depth + 1, IsUnsafe(), IsTooLarge())
        case Some(f) => TellsDown(value, path, depth, i, ViolationInEntries(value, path, depth, i), f);
        case None => EntriesAreFirst(value, path, depth, i + 1);
      }
    }
  }

  /** The message for a fault under child `i` is the one for that child. */
  lemma TellsDown(v: Json, path: string, depth: nat, i: nat, found: Option<Violation>, f: Fault)
    requires i < Size(v) && Tells(Child(v, i), ChildPath(v, path, i), depth + 1, found, Some(f))
    ensures Tells(v, path, depth, found, Some(Fault([i] + f.pos, f.atKey)))
  {
    PathTextDown(v, path, i, f.pos);
  }

  lemma TellsKey(v: Json, path: string, depth: nat, i: nat)
    requires v.Object? && i < Size(v)
    ensures Tells(v, path, depth, Some(KeyNotAllowed(path + "." + v.entries[i].key)), Some(Fault([i], true)))
  {
    PathTextDown(v, path, i, []);
  }

  lemma PathTextDown(v: Json, path: string, i: nat, pos: seq<nat>)
    requires i < Size(v) && Reaches(Child(v, i), pos)
    ensures Reaches(v, [i] + pos) && PathText(v, path, [i] + pos) == PathText(Child(v, i), ChildPath(v, path, i), pos)
    ensures [i] + [] == [i]
  {
    assert ([i] + pos)[1..] == pos;
  }

  /** Every node is at most eight levels down, no array is longer than 200, no key is unsafe. */
  ghost predicate Acceptable(value: Json) {
    forall pos | Reaches(value, pos) ::
      && |pos| <= 8
      && (NodeAt(value, pos).Array? ==> |NodeAt(value, pos).items| <= 200)
      && (NodeAt(value, pos).Object? ==> forall entry | entry in NodeAt(value, pos).entries :: !UnsafeKey(entry.key))
  }

  /** The check accepts exactly the acceptable configurations. */
  lemma AcceptsExactlyAcceptable(value: Json, path: string)
    ensures ObjectKindConfigViolation(value, path, 0).None? <==> Acceptable(value)
  {
    var badKey, badNode := IsUnsafe(), IsTooLarge();
    ViolationIsFirst(value, path, 0);
    FirstExact(value, 0, badKey, badNode);
    if NoFault(value, 0, badKey, badNode) {
      forall pos | Reaches(value, pos)
        ensures |pos| <= MAX_DEPTH && !TooLong(NodeAt(value, pos))
        ensures NodeAt(value, pos).Object? ==> forall entry | entry in NodeAt(value, pos).entries ::
                !UnsafeKey(entry.key)
      {
        NoFaultAt(value, pos);
      }
    }
    if Acceptable(value) {
      forall f ensures !IsFault(value, 0, f, badKey, badNode) {
        AcceptableHasNoFault(value, f);
      }
    }
  }

  lemma AcceptableHasNoFault(value: Json, f: Fault)
    requires Acceptable(value)
    ensures !IsFault(value, 0, f, IsUnsafe(), IsTooLarge())
  {
    FaultMeaning(value, 0, f, IsUnsafe(), IsTooLarge());
    if Reaches(value, f.pos) {
      assert |f.pos| <= 8 && !TooLong(NodeAt(value, f.pos));
    }
    if f.atKey && f.pos != [] && Reaches(value, f.pos[..|f.pos| - 1]) {
      var parent := NodeAt(value, f.pos[..|f.pos| - 1]);
      if parent.Object? && f.pos[|f.pos| - 1] < |parent.entries| {
        EntryIsListed(parent, f.pos[|f.pos| - 1]);
      }
    }
  }

  lemma EntryIsListed(v: Json, i: nat)
    requires v.Object? && i < |v.entries|
    ensures v.entries[i] in v.entries
  {}

  lemma NoFaultAt(value: Json, pos: seq<nat>)
    requires NoFault(value, 0, IsUnsafe(), IsTooLarge()) && Reaches(value, pos)
    ensures |pos| <= MAX_DEPTH && !TooLong(NodeAt(value, pos))
    ensures NodeAt(value, pos).Object? ==> forall entry | entry in NodeAt(value, pos).entries :: !UnsafeKey(entry.key)
  {
    FaultMeaning(value, 0, Fault(pos, false), IsUnsafe(), IsTooLarge());
    if NodeAt(value, pos).Object? {
      forall entry | entry in NodeAt(value, pos).entries ensures !UnsafeKey(entry.key) {
        var i :| 0 <= i < |NodeAt(value, pos).entries| && NodeAt(value, pos).entries[i] == entry;
        FaultMeaning(value, 0, Fault(pos + [i], true), IsUnsafe(), IsTooLarge());
        assert (pos + [i])[..|pos|] == pos;
      }
    }
  }

  /** A reported violation is the first fault in document order, told at its own path. */
  lemma ReportsTheFirst(value: Json, path: string)
    requires ObjectKindConfigViolation(value, path, 0).Some?
    ensures exists f :: && IsFirst(value, 0, f, IsUnsafe(), IsTooLarge())
                        && Tells(value, path, 0, ObjectKindConfigViolation(value, path, 0), Some(f))
  {
    ViolationIsFirst(value, path, 0);
    FirstExact(value, 0, IsUnsafe(), IsTooLarge());
  }

  lemma UnsafeEntryTold(key: string, child: Json, path: string, depth: nat)
    requires UnsafeKey(key) && depth <= 8
    ensures ObjectKindConfigViolation(Object([Entry(key, child)]), path, depth) == Some(KeyNotAllowed(path + "." + key))
  {
    assert ViolationInEntries(Object([Entry(key, child)]), path, depth, 0) == Some(KeyNotAllowed(path + "." + key));
  }

  lemma ToldInEntry(key: string, child: Json, path: string, depth: nat)
    requires !UnsafeKey(key) && depth <= 8 && ObjectKindConfigViolation(child, path + "." + key, depth + 1).Some?
    ensures ObjectKindConfigViolation(Object([Entry(key, child)]), path, depth)
         == ObjectKindConfigViolation(child, path + "." + key, depth + 1)
  {
    assert ViolationInEntries(Object([Entry(key, child)]), path, depth, 0)
        == ObjectKindConfigViolation(child, path + "." + key, depth + 1);
  }

  lemma ToldInSecondItem(first: Json, second: Json, path: string, depth: nat)
    requires depth <= 8 && ObjectKindConfigViolation(first, path + "[0]", depth + 1).None?
    requires ObjectKindConfigViolation(second, path + "[1]", depth + 1).Some?
    ensures ObjectKindConfigViolation(Array([first, second]), path, depth)
         == ObjectKindConfigViolation(second, path + "[1]", depth + 1)
  {
    var list := Array([first, second]);
    assert path + "[" + Decimal(0) + "]" == path + "[0]" && path + "[" + Decimal(1) + "]" == path + "[1]";
    assert ViolationInItems(list, path, depth, 1) == ObjectKindConfigViolation(second, path + "[1]", depth + 1);
    assert ViolationInItems(list, path, depth, 0) == ViolationInItems(list, path, depth, 1);
  }

  /** How a path is spelled: a dot before a key, brackets around a list position. */
  lemma PathsAsWritten(path: string, key: string, bad: string, child: Json)
    requires !UnsafeKey(key) && UnsafeKey(bad)
    ensures ObjectKindConfigViolation(Object([Entry(key, Array([Null, Object([Entry(bad, child)])]))]), path, 0)
         == Some(KeyNotAllowed(path + "." + key + "[1]" + "." + bad))
  {
    var inner := Object([Entry(bad, child)]);
    UnsafeEntryTold(bad, child, path + "." + key + "[1]", 2);
    ToldInSecondItem(Null, inner, path + "." + key, 1);
    ToldInEntry(key, Array([Null, inner]), path, 0);
  }
}
