/** Small facts about sequences used by more than one component. */
module Sequences {

  ghost predicate Distinct<T>(s: seq<T>) {
    forall i, j | 0 <= i < j < |s| :: s[i] != s[j]
  }

  ghost function Elements<T>(s: seq<T>): set<T> {
    set x | x in s
  }

  /** The elements of `s` that lie in `keep`, in order and with repetitions. */
  function Keep<T(==)>(s: seq<T>, keep: set<T>): seq<T> {
    if s == [] then []
    else
      var rest := Keep(s[..|s| - 1], keep);
      if s[|s| - 1] in keep then rest + [s[|s| - 1]] else rest
  }

  /** The elements of `s` that do not lie in `skip`, in order and with repetitions. */
  function Skip<T(==)>(s: seq<T>, skip: set<T>): seq<T> {
    if s == [] then []
    else
      var rest := Skip(s[..|s| - 1], skip);
      if s[|s| - 1] in skip then rest else rest + [s[|s| - 1]]
  }

  lemma {:induction false} SkipIn<T>(s: seq<T>, skip: set<T>, x: T)
    ensures x in Skip(s, skip) <==> x in s && x !in skip
  {
    if s != [] {
      SkipIn(s[..|s| - 1], skip, x);
      assert s == s[..|s| - 1] + [s[|s| - 1]];
    }
  }

  /** Two filters agree when every element is on exactly one of the two sides. */
  lemma {:induction false} KeepIsSkip<T>(s: seq<T>, keep: set<T>, skip: set<T>)
    requires forall x | x in s :: x in keep <==> x !in skip
    ensures Keep(s, keep) == Skip(s, skip)
  {
    if s != [] {
      assert s == s[..|s| - 1] + [s[|s| - 1]];
      KeepIsSkip(s[..|s| - 1], keep, skip);
    }
  }

  lemma AppendAssociates<T>(a: seq<T>, b: seq<T>, c: seq<T>)
    ensures a + b + c == a + (b + c)
  {}

  /** Document order of tree positions, one child number per level: a node comes before what it
      contains, and children from left to right. */
  ghost predicate Before(a: seq<nat>, b: seq<nat>) {
    b != [] && (a == [] || a[0] < b[0] || (a[0] == b[0] && Before(a[1..], b[1..])))
  }

  lemma {:induction false} BeforeIrreflexive(a: seq<nat>)
    ensures !Before(a, a)
  {
    if a != [] { BeforeIrreflexive(a[1..]); }
  }
}
