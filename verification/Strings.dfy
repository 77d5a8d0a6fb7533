/** Strings as sequences of characters: the lexicographic order, sorting, and decimal numerals. */
module Strings {
  import opened Sequences

  // ------------------------------------------------------------ lexicographic order

  /** The order of JavaScript's default `sort()` on strings. */
  predicate Less(a: string, b: string) {
    if b == "" then false
    else if a == "" then true
    else if a[0] != b[0] then a[0] < b[0]
    else Less(a[1..], b[1..])
  }

  lemma {:induction false} LessIrreflexive(a: string)
    ensures !Less(a, a)
  {
    if a != "" { LessIrreflexive(a[1..]); }
  }

  lemma {:induction false} LessTotal(a: string, b: string)
    ensures Less(a, b) || a == b || Less(b, a)
  {
    if a != "" && b != "" && a[0] == b[0] {
      LessTotal(a[1..], b[1..]);
      assert a == [a[0]] + a[1..] && b == [b[0]] + b[1..];
    }
  }

  lemma {:induction false} LessTransitive(a: string, b: string, c: string)
    requires Less(a, b) && Less(b, c)
    ensures Less(a, c)
  {
    if a != "" && a[0] == b[0] && b[0] == c[0] {
      LessTransitive(a[1..], b[1..], c[1..]);
    }
  }

  lemma LessAsymmetric(a: string, b: string)
    requires Less(a, b)
    ensures !Less(b, a)
  {
    if Less(b, a) {
      LessTransitive(a, b, a);
      LessIrreflexive(a);
    }
  }

  /** Strings with different heads of equal length compare as their heads do. */
  lemma {:induction false} LessByHead(a: string, b: string, x: string, y: string)
    requires |a| == |b| && a != b
    ensures Less(a + x, b + y) <==> Less(a, b)
  {
    assert a + x != "" && b + y != "";
    if a[0] == b[0] {
      assert (a + x)[1..] == a[1..] + x && (b + y)[1..] == b[1..] + y;
      assert a == [a[0]] + a[1..] && b == [b[0]] + b[1..];
      LessByHead(a[1..], b[1..], x, y);
    }
  }

  // ------------------------------------------------------------------------ sorting

  ghost predicate Ascending(s: seq<string>) {
    forall i, j | 0 <= i < j < |s| :: s[i] == s[j] || Less(s[i], s[j])
  }

  ghost predicate StrictlyAscending(s: seq<string>) {
    forall i, j | 0 <= i < j < |s| :: Less(s[i], s[j])
  }

  function Insert(x: string, s: seq<string>): (r: seq<string>)
    ensures |r| == |s| + 1
  {
    if s == [] || !Less(s[0], x) then [x] + s else [s[0]] + Insert(x, s[1..])
  }

  function Sort(s: seq<string>): (r: seq<string>)
    ensures |r| == |s|
  {
    if s == [] then [] else Insert(s[0], Sort(s[1..]))
  }

  lemma {:induction false} InsertPermutes(x: string, s: seq<string>)
    ensures multiset(Insert(x, s)) == multiset(s) + multiset{x}
  {
    if !(s == [] || !Less(s[0], x)) {
      InsertPermutes(x, s[1..]);
      assert s == [s[0]] + s[1..];
    }
  }

  lemma {:induction false} InsertAscends(x: string, s: seq<string>)
    requires Ascending(s)
    ensures Ascending(Insert(x, s))
  {
    if s == [] {
    } else if !Less(s[0], x) {
      LessTotal(s[0], x);
      forall i | 0 <= i < |s| ensures x == s[i] || Less(x, s[i]) {
        if i > 0 && x != s[0] && s[0] != s[i] { LessTransitive(x, s[0], s[i]); }
      }
    } else {
      InsertAscends(x, s[1..]);
      InsertPermutes(x, s[1..]);
      var r := Insert(x, s[1..]);
      forall i | 0 <= i < |r| ensures s[0] == r[i] || Less(s[0], r[i]) {
        assert r[i] in multiset(r);
        assert r[i] == x || r[i] in s[1..];
      }
    }
  }

  lemma {:induction false} SortIsSorted(s: seq<string>)
    ensures Ascending(Sort(s)) && multiset(Sort(s)) == multiset(s)
  {
    if s != [] {
      var rest := Sort(s[1..]);
      SortIsSorted(s[1..]);
      InsertAscends(s[0], rest);
      InsertPermutes(s[0], rest);
      assert s == [s[0]] + s[1..];
    }
  }

  lemma SortMembers(s: seq<string>)
    ensures forall x :: x in Sort(s) <==> x in s
  {
    SortIsSorted(s);
    forall x ensures x in Sort(s) <==> x in s {
      assert x in Sort(s) <==> x in multiset(Sort(s));
      assert x in s <==> x in multiset(s);
    }
  }

  /** Sorting distinct strings puts them in strictly ascending order. */
  lemma SortOfDistinct(s: seq<string>)
    requires Distinct(s)
    ensures StrictlyAscending(Sort(s))
  {
    SortIsSorted(s);
    var r := Sort(s);
    forall i, j | 0 <= i < j < |r| ensures Less(r[i], r[j]) {
      DistinctCount(s, r[j]);
      if r[i] == r[j] { TwiceCount(r, i, j); }
    }
  }

  /** Two ascending lists with the same elements are the same list. */
  lemma {:induction false} AscendingUnique(a: seq<string>, b: seq<string>)
    requires Ascending(a) && Ascending(b) && multiset(a) == multiset(b)
    ensures a == b
  {
    assert |a| == |multiset(a)| == |multiset(b)| == |b|;
    if a != [] {
      SameLeast(a, b);
      RestMultiset(a);
      RestMultiset(b);
      AscendingUnique(a[1..], b[1..]);
      assert a == [a[0]] + a[1..] && b == [b[0]] + b[1..];
    }
  }

  lemma SameLeast(a: seq<string>, b: seq<string>)
    requires Ascending(a) && Ascending(b) && a != [] && b != [] && multiset(a) == multiset(b)
    ensures a[0] == b[0]
  {
    assert a[0] in multiset(b) && b[0] in multiset(a);
    assert a[0] in b && b[0] in a;
    if a[0] != b[0] {
      LessAsymmetric(a[0], b[0]);
    }
  }

  lemma RestMultiset(s: seq<string>)
    requires s != []
    ensures multiset(s[1..]) == multiset(s) - multiset{s[0]}
  {
    assert s == [s[0]] + s[1..];
  }

  lemma SortOfPermutation(a: seq<string>, b: seq<string>)
    requires multiset(a) == multiset(b)
    ensures Sort(a) == Sort(b)
  {
    SortIsSorted(a);
    SortIsSorted(b);
    AscendingUnique(Sort(a), Sort(b));
  }

  /** Lists without repetition that have the same elements are permutations of each other. */
  lemma DistinctSameElements(a: seq<string>, b: seq<string>)
    requires Distinct(a) && Distinct(b) && Elements(a) == Elements(b)
    ensures multiset(a) == multiset(b)
  {
    forall x ensures multiset(a)[x] == multiset(b)[x] {
      DistinctCount(a, x);
      DistinctCount(b, x);
      assert x in a <==> x in multiset(a);
      assert x in b <==> x in multiset(b);
      assert x in a <==> x in Elements(a);
      assert x in b <==> x in Elements(b);
    }
  }

  lemma TwiceCount(s: seq<string>, i: int, j: int)
    requires 0 <= i < j < |s| && s[i] == s[j]
    ensures multiset(s)[s[j]] >= 2
  {
    var front, back := s[..j], s[j..];
    assert s == front + back;
    assert front[i] == s[i] && back[0] == s[j];
    assert multiset(front)[s[j]] >= 1 && multiset(back)[s[j]] >= 1;
  }

  lemma {:induction false} DistinctCount(s: seq<string>, x: string)
    requires Distinct(s)
    ensures multiset(s)[x] <= 1
  {
    if s != [] {
      DistinctCount(s[1..], x);
      assert s == [s[0]] + s[1..];
      if s[0] == x {
        assert x !in s[1..];
        assert x !in multiset(s[1..]);
      }
    }
  }

  // --------------------------------------------------------------- decimal numerals

  predicate IsDigit(c: char) {
    '0' <= c <= '9'
  }

  predicate AllDigits(s: string) {
    forall c | c in s :: IsDigit(c)
  }

  function DigitValue(c: char): (v: nat)
    requires IsDigit(c)
    ensures v < 10 && c == ('0' as int + v) as char
  {
    c as int - '0' as int
  }

  function Value(digits: string): nat
    requires AllDigits(digits)
  {
    if digits == "" then 0
    else
      var last := digits[|digits| - 1];
      assert last in digits;
      10 * Value(digits[..|digits| - 1]) + DigitValue(last)
  }

  /** The numeral JavaScript and Python print for a natural number. */
  function Decimal(n: nat): (s: string)
    ensures s != "" && AllDigits(s)
  {
    var digit := ('0' as int + n % 10) as char;
    if n < 10 then [digit] else Decimal(n / 10) + [digit]
  }

  lemma {:induction false} ValueOfDecimal(n: nat)
    ensures Value(Decimal(n)) == n
  {
    var s := Decimal(n);
    if n >= 10 {
      assert s[..|s| - 1] == Decimal(n / 10);
      ValueOfDecimal(n / 10);
    } else {
      assert s[..|s| - 1] == "";
    }
  }

  /** No numeral but `0` itself starts with a zero. */
  lemma {:induction false} DecimalHasNoLeadingZero(n: nat)
    ensures Decimal(n)[0] == '0' <==> n == 0
    ensures n == 0 ==> Decimal(n) == "0"
  {
    if n >= 10 { DecimalHasNoLeadingZero(n / 10); }
  }

  lemma DecimalInjective(m: nat, n: nat)
    requires Decimal(m) == Decimal(n)
    ensures m == n
  {
    ValueOfDecimal(m);
    ValueOfDecimal(n);
  }

  /** How many characters at the front of `s` are digits. */
  function DigitRun(s: string): (n: nat)
    ensures n <= |s| && AllDigits(s[..n]) && (n < |s| ==> !IsDigit(s[n]))
  {
    if s == "" || !IsDigit(s[0]) then 0
    else
      assert s[..1 + DigitRun(s[1..])] == [s[0]] + s[1..][..DigitRun(s[1..])];
      1 + DigitRun(s[1..])
  }

  lemma {:induction false} DigitRunStopsAt(digits: string, rest: string)
    requires AllDigits(digits) && rest != "" && !IsDigit(rest[0])
    ensures DigitRun(digits + rest) == |digits|
  {
    if digits == "" {
      assert digits + rest == rest;
    } else {
      assert digits[0] in digits;
      assert (digits + rest)[1..] == digits[1..] + rest;
      DigitRunStopsAt(digits[1..], rest);
    }
  }

  /** For numerals of equal width the lexicographic order is the numeric one. */
  lemma {:induction false} LessIsNumeric(a: string, b: string)
    requires |a| == |b| && AllDigits(a) && AllDigits(b)
    ensures Less(a, b) <==> Value(a) < Value(b)
    ensures a == b <==> Value(a) == Value(b)
  {
    if a != "" {
      var k := |a| - 1;
      LessIsNumeric(a[..k], b[..k]);
      assert a[k] in a && b[k] in b;
      assert DigitValue(a[k]) < DigitValue(b[k]) <==> a[k] < b[k];
      assert a == a[..k] + [a[k]] && b == b[..k] + [b[k]];
      if a[..k] == b[..k] {
        LessAfterCommonHead(a[..k], [a[k]], [b[k]]);
      } else {
        LessByHead(a[..k], b[..k], [a[k]], [b[k]]);
      }
    }
  }

  lemma {:induction false} LessAfterCommonHead(head: string, x: string, y: string)
    ensures Less(head + x, head + y) <==> Less(x, y)
  {
    if head == "" {
      assert head + x == x && head + y == y;
    } else {
      assert (head + x)[1..] == head[1..] + x && (head + y)[1..] == head[1..] + y;
      LessAfterCommonHead(head[1..], x, y);
    }
  }

  // ------------------------------------------------------------- prefixes, suffixes

  predicate StartsWith(s: string, prefix: string) {
    |prefix| <= |s| && s[..|prefix|] == prefix
  }

  predicate EndsWith(s: string, suffix: string) {
    |suffix| <= |s| && s[|s| - |suffix|..] == suffix
  }

  /** What `.` does not match in a JavaScript regular expression. */
  predicate IsLineBreak(c: char) {
    c == '\n' || c == '\r' || c == '\U{2028}' || c == '\U{2029}'
  }

  predicate HasLineBreak(s: string) {
    exists i :: 0 <= i < |s| && IsLineBreak(s[i])
  }

  // ----------------------------------------------------------- case and white space

  function LowerChar(c: char): char {
    if 'A' <= c <= 'Z' then (c as int + 32) as char else c
  }

  /** `toLowerCase` on ASCII text. */
  function Lower(s: string): (r: string)
    ensures |r| == |s|
  {
    seq(|s|, i requires 0 <= i < |s| => LowerChar(s[i]))
  }

  const CAPITALS := "ABCDEFGHIJKLMNOPQRSTUVWXYZ"
  const SMALL := "abcdefghijklmnopqrstuvwxyz"

  lemma CapitalsInOrder(n: nat)
    ensures |CAPITALS| == 26
    ensures n < 26 ==> CAPITALS[n] as int == 'A' as int + n
  {}

  lemma SmallInOrder(n: nat)
    ensures |SMALL| == 26
    ensures n < 26 ==> SMALL[n] as int == 'a' as int + n
  {}

  /** Lower-casing maps the capitals to the small letters, one by one, and leaves all else alone. */
  lemma LowerExact(s: string, k: nat)
    requires k < |s|
    ensures |CAPITALS| == |SMALL| == 26
    ensures forall n | 0 <= n < 26 :: s[k] == CAPITALS[n] ==> Lower(s)[k] == SMALL[n]
    ensures s[k] !in CAPITALS ==> Lower(s)[k] == s[k]
  {
    CapitalsInOrder(0);
    SmallInOrder(0);
    forall n | 0 <= n < 26 && s[k] == CAPITALS[n] ensures Lower(s)[k] == SMALL[n] {
      CapitalsInOrder(n);
      SmallInOrder(n);
    }
    if 'A' <= s[k] <= 'Z' {
      CapitalsInOrder(s[k] as int - 'A' as int);
    }
  }

  /** What `String.prototype.trim` removes. */
  predicate IsSpace(c: char) {
    || c == ' ' || c == '\t' || c == '\n' || c == '\r' || c == '\U{000B}' || c == '\U{000C}'
    || c == '\U{00A0}' || c == '\U{1680}' || '\U{2000}' <= c <= '\U{200A}' || c == '\U{2028}' || c == '\U{2029}'
    || c == '\U{202F}' || c == '\U{205F}' || c == '\U{3000}' || c == '\U{FEFF}'
  }

  function TrimStart(s: string): (r: string)
    ensures |r| <= |s|
  {
    if s != "" && IsSpace(s[0]) then TrimStart(s[1..]) else s
  }

  function TrimEnd(s: string): (r: string)
    ensures |r| <= |s|
  {
    if s != "" && IsSpace(s[|s| - 1]) then TrimEnd(s[..|s| - 1]) else s
  }

  function Trim(s: string): string {
    TrimEnd(TrimStart(s))
  }

  predicate AllSpace(s: string) {
    forall k | 0 <= k < |s| :: IsSpace(s[k])
  }

  /** Nothing to trim. */
  predicate Tight(s: string) {
    s != "" ==> !IsSpace(s[0]) && !IsSpace(s[|s| - 1])
  }

  lemma {:induction false} TrimStartCut(left: string, s: string)
    requires AllSpace(left) && (s != "" ==> !IsSpace(s[0]))
    ensures TrimStart(left + s) == s
  {
    if left == "" {
      assert left + s == s;
    } else {
      assert (left + s)[1..] == left[1..] + s;
      TrimStartCut(left[1..], s);
    }
  }

  lemma {:induction false} TrimEndCut(s: string, right: string)
    requires AllSpace(right) && (s != "" ==> !IsSpace(s[|s| - 1]))
    ensures TrimEnd(s + right) == s
  {
    if right == "" {
      assert s + right == s;
    } else {
      assert (s + right)[..|s + right| - 1] == s + right[..|right| - 1];
      TrimEndCut(s, right[..|right| - 1]);
    }
  }

  /** Trimming removes the white space around a text, */
  lemma TrimCuts(left: string, s: string, right: string)
    requires AllSpace(left) && Tight(s) && AllSpace(right)
    ensures Trim(left + s + right) == s
  {
    if s == "" {
      assert left + s + right == left + right + "";
      assert AllSpace(left + right);
      TrimStartCut(left + right, "");
    } else {
      assert left + s + right == left + (s + right);
      TrimStartCut(left, s + right);
      TrimEndCut(s, right);
    }
  }

  lemma {:induction false} TrimStartLeaves(s: string) returns (left: string)
    ensures s == left + TrimStart(s) && AllSpace(left)
    ensures TrimStart(s) != "" ==> !IsSpace(TrimStart(s)[0])
  {
    left := "";
    if s != "" && IsSpace(s[0]) {
      left := TrimStartLeaves(s[1..]);
      left := [s[0]] + left;
    }
  }

  lemma {:induction false} TrimEndLeaves(s: string) returns (right: string)
    ensures s == TrimEnd(s) + right && AllSpace(right)
    ensures TrimEnd(s) != "" ==> !IsSpace(TrimEnd(s)[|TrimEnd(s)| - 1])
  {
    right := "";
    if s != "" && IsSpace(s[|s| - 1]) {
      right := TrimEndLeaves(s[..|s| - 1]);
      right := right + [s[|s| - 1]];
    }
  }

  /** and nothing else. */
  lemma TrimLeaves(s: string) returns (left: string, right: string)
    ensures s == left + Trim(s) + right && AllSpace(left) && AllSpace(right) && Tight(Trim(s))
  {
    left := TrimStartLeaves(s);
    right := TrimEndLeaves(TrimStart(s));
    assert Trim(s) != "" ==> Trim(s)[0] == TrimStart(s)[0];
    AppendAssociates(left, Trim(s), right);
  }
}
