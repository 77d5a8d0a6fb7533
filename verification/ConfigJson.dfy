/** The canonical text of a server configuration, from which its content hash is taken. */
module ConfigJson {
  import opened Sequences
  import opened Strings

  datatype Value = Null | Flag(flag: bool) | Number(number: int) | Text(text: string) | Texts(texts: seq<string>)

  datatype Field = Field(key: string, value: Value)

  type Config = map<string, Value>

  const REDACTED := Text("<redacted>")

  predicate IsSecret(key: string) {
    key == "internalToken" || key == "googleClientSecret" || key == "backupDatabaseUrl"
  }

  function Shown(key: string, value: Value): Value {
    if IsSecret(key) then REDACTED else value
  }

  // -------------------------------------------------------------------- JSON.stringify

  function HexDigit(n: nat): (c: char)
    requires n < 16
    ensures c != '"' && c != '\\'
  {
    if n < 10 then ('0' as int + n) as char else ('a' as int + n - 10) as char
  }

  /** One character inside a JSON string. */
  function Escaped(c: char): (s: string)
    ensures s != ""
  {
    if c == '"' then "\\\""
    else if c == '\\' then "\\\\"
    else if c == '\U{08}' then "\\b"
    else if c == '\U{0C}' then "\\f"
    else if c == '\n' then "\\n"
    else if c == '\r' then "\\r"
    else if c == '\t' then "\\t"
    else if (c as int) < 0x20 then "\\u00" + [HexDigit(c as int / 16), HexDigit(c as int % 16)]
    else [c]
  }

  /** The rest of a string literal, closing quote included. */
  function Unclosed(s: string): string {
    if s == "" then "\"" else Escaped(s[0]) + Unclosed(s[1..])
  }

  function Quoted(s: string): string {
    "\"" + Unclosed(s)
  }

  function PrintedTail(texts: seq<string>): string {
    if texts == [] then "]" else "," + Quoted(texts[0]) + PrintedTail(texts[1..])
  }

  function Integer(n: int): string {
    if n < 0 then "-" + Decimal(-n) else Decimal(n)
  }

  function Printed(v: Value): string {
    match v
    case Null => "null"
    case Flag(b) => if b then "true" else "false"
    case Number(n) => Integer(n)
    case Text(s) => Quoted(s)
    case Texts(ts) => if ts == [] then "[]" else "[" + Quoted(ts[0]) + PrintedTail(ts[1..])
  }

  function PrintedField(f: Field): string {
    Quoted(f.key) + ":" + Printed(f.value)
  }

  function FieldsTail(fields: seq<Field>): string {
    if fields == [] then "}" else "," + PrintedField(fields[0]) + FieldsTail(fields[1..])
  }

  function Stringified(fields: seq<Field>): string {
    if fields == [] then "{}" else "{" + PrintedField(fields[0]) + FieldsTail(fields[1..])
  }

  // ------------------------------------------------ the printer can be read back

  lemma HexInjective(m: nat, n: nat)
    requires m < 16 && n < 16 && HexDigit(m) == HexDigit(n)
    ensures m == n
  {}

  lemma EscapedControl(c: char, d: char)
    requires Escaped(c) == Escaped(d)
    ensures c == d
  {
    if |Escaped(c)| == 6 {
      assert Escaped(c)[4] == HexDigit(c as int / 16) && Escaped(c)[5] == HexDigit(c as int % 16);
      assert Escaped(d)[4] == HexDigit(d as int / 16) && Escaped(d)[5] == HexDigit(d as int % 16);
      HexInjective(c as int / 16, d as int / 16);
      HexInjective(c as int % 16, d as int % 16);
    }
  }

  lemma EscapedShape(c: char)
    ensures |Escaped(c)| == 1 || |Escaped(c)| == 2 || |Escaped(c)| == 6
    ensures |Escaped(c)| == 1 <==> Escaped(c)[0] != '\\'
    ensures |Escaped(c)| == 6 <==> |Escaped(c)| >= 2 && Escaped(c)[1] == 'u'
    ensures Escaped(c)[0] != '"'
  {}

  lemma EscapedPrefixFree(c: char, d: char, x: string, y: string)
    requires Escaped(c) + x == Escaped(d) + y
    ensures c == d && x == y
  {
    EscapedShape(c);
    EscapedShape(d);
    SameHead(Escaped(c), Escaped(d), x, y);
    EscapedControl(c, d);
  }

  /** Equal texts whose first pieces have equal length have equal pieces. */
  lemma SplitEqual(a: string, b: string, x: string, y: string)
    requires a + x == b + y && |a| == |b|
    ensures a == b && x == y
  {
    assert a == (a + x)[..|a|] && b == (b + y)[..|a|];
    assert x == (a + x)[|a|..] && y == (b + y)[|a|..];
  }

  lemma SameHead(a: string, b: string, x: string, y: string)
    requires a + x == b + y && a != "" && b != ""
    requires |a| == 1 || |a| == 2 || |a| == 6
    requires |b| == 1 || |b| == 2 || |b| == 6
    requires (|a| == 1 <==> a[0] != '\\') && (|b| == 1 <==> b[0] != '\\')
    requires (|a| == 6 <==> |a| >= 2 && a[1] == 'u') && (|b| == 6 <==> |b| >= 2 && b[1] == 'u')
    ensures a == b && x == y
  {
    assert a[0] == (a + x)[0] == (b + y)[0] == b[0];
    if |a| >= 2 && |b| >= 2 {
      assert a[1] == (a + x)[1] == (b + y)[1] == b[1];
    }
    SplitEqual(a, b, x, y);
  }

  lemma UnclosedStart(s: string, x: string)
    ensures Unclosed(s) + x != ""
    ensures s == "" <==> (Unclosed(s) + x)[0] == '"'
    ensures s != "" ==> Unclosed(s) + x == Escaped(s[0]) + (Unclosed(s[1..]) + x)
  {
    if s != "" {
      EscapedShape(s[0]);
      AppendAssociates(Escaped(s[0]), Unclosed(s[1..]), x);
    }
  }

  lemma {:induction false} UnclosedPrefixFree(s: string, t: string, x: string, y: string)
    requires Unclosed(s) + x == Unclosed(t) + y
    ensures s == t && x == y
  {
    UnclosedStart(s, x);
    UnclosedStart(t, y);
    if s == "" {
      SplitEqual("\"", "\"", x, y);
    } else {
      EscapedPrefixFree(s[0], t[0], Unclosed(s[1..]) + x, Unclosed(t[1..]) + y);
      UnclosedPrefixFree(s[1..], t[1..], x, y);
      assert s == [s[0]] + s[1..] && t == [t[0]] + t[1..];
    }
  }

  lemma QuotedPrefixFree(s: string, t: string, x: string, y: string)
    requires Quoted(s) + x == Quoted(t) + y
    ensures s == t && x == y
  {
    AppendAssociates("\"", Unclosed(s), x);
    AppendAssociates("\"", Unclosed(t), y);
    SplitEqual("\"", "\"", Unclosed(s) + x, Unclosed(t) + y);
    UnclosedPrefixFree(s, t, x, y);
  }

  lemma {:induction false} TailPrefixFree(a: seq<string>, b: seq<string>, x: string, y: string)
    requires PrintedTail(a) + x == PrintedTail(b) + y
    ensures a == b && x == y
  {
    assert (PrintedTail(a) + x)[0] == PrintedTail(a)[0] && (PrintedTail(b) + y)[0] == PrintedTail(b)[0];
    if a == [] || b == [] {
      SplitEqual("]", "]", x, y);
    } else {
      QuotedThen(a[0], PrintedTail(a[1..]), x);
      QuotedThen(b[0], PrintedTail(b[1..]), y);
      SplitEqual(",", ",", Quoted(a[0]) + (PrintedTail(a[1..]) + x), Quoted(b[0]) + (PrintedTail(b[1..]) + y));
      QuotedPrefixFree(a[0], b[0], PrintedTail(a[1..]) + x, PrintedTail(b[1..]) + y);
      TailPrefixFree(a[1..], b[1..], x, y);
      assert a == [a[0]] + a[1..] && b == [b[0]] + b[1..];
    }
  }

  lemma QuotedThen(s: string, rest: string, x: string)
    ensures "," + Quoted(s) + rest + x == "," + (Quoted(s) + (rest + x))
    ensures "[" + Quoted(s) + rest + x == "[" + (Quoted(s) + (rest + x))
  {}

  /** `x` continues a printed value: what follows cannot be more of a number. */
  predicate Delimited(x: string) {
    x != "" && (x[0] == ',' || x[0] == '}')
  }

  lemma DigitsEnd(a: string, b: string, x: string, y: string)
    requires AllDigits(a) && AllDigits(b) && Delimited(x) && Delimited(y) && a + x == b + y
    ensures a == b && x == y
  {
    DigitRunStopsAt(a, x);
    DigitRunStopsAt(b, y);
    SplitEqual(a, b, x, y);
  }

  lemma IntegerPrefixFree(m: int, n: int, x: string, y: string)
    requires Delimited(x) && Delimited(y) && Integer(m) + x == Integer(n) + y
    ensures m == n && x == y
  {
    var a, b := Decimal(if m < 0 then -m else m), Decimal(if n < 0 then -n else n);
    assert a[0] in a && b[0] in b;
    assert (Integer(m) + x)[0] == Integer(m)[0] && (Integer(n) + y)[0] == Integer(n)[0];
    assert m < 0 <==> n < 0;
    if m < 0 {
      AppendAssociates("-", a, x);
      AppendAssociates("-", b, y);
      SplitEqual("-", "-", a + x, b + y);
    }
    DigitsEnd(a, b, x, y);
    DecimalInjective(if m < 0 then -m else m, if n < 0 then -n else n);
  }

  /** The first character of a printed value tells its kind. */
  function KindOf(v: Value): int {
    match v
    case Null => 0
    case Flag(b) => if b then 1 else 2
    case Number(_) => 3
    case Text(_) => 4
    case Texts(_) => 5
  }

  function KindOfFirst(c: char): int {
    if c == 'n' then 0 else if c == 't' then 1 else if c == 'f' then 2 else if c == '"' then 4
    else if c == '[' then 5 else 3
  }

  lemma PrintedKind(v: Value)
    ensures Printed(v) != "" && KindOfFirst(Printed(v)[0]) == KindOf(v)
  {
    if v.Number? {
      var d := Decimal(if v.number < 0 then -v.number else v.number);
      assert d[0] in d;
    }
  }

  lemma PrintedPrefixFree(v: Value, w: Value, x: string, y: string)
    requires Delimited(x) && Delimited(y) && Printed(v) + x == Printed(w) + y
    ensures v == w && x == y
  {
    PrintedKind(v);
    PrintedKind(w);
    assert (Printed(v) + x)[0] == Printed(v)[0] && (Printed(w) + y)[0] == Printed(w)[0];
    assert KindOf(v) == KindOf(w);
    match v
    case Null => SplitEqual(Printed(v), Printed(w), x, y);
    case Flag(_) => SplitEqual(Printed(v), Printed(w), x, y);
    case Number(n) => IntegerPrefixFree(n, w.number, x, y);
    case Text(s) => QuotedPrefixFree(s, w.text, x, y);
    case Texts(ts) => TextsPrefixFree(ts, w.texts, x, y);
  }

  lemma TextsPrefixFree(a: seq<string>, b: seq<string>, x: string, y: string)
    requires Printed(Texts(a)) + x == Printed(Texts(b)) + y
    ensures a == b && x == y
  {
    assert (Printed(Texts(a)) + x)[1] == Printed(Texts(a))[1] && (Printed(Texts(b)) + y)[1] == Printed(Texts(b))[1];
    if a == [] || b == [] {
      SplitEqual("[]", "[]", x, y);
    } else {
      QuotedThen(a[0], PrintedTail(a[1..]), x);
      QuotedThen(b[0], PrintedTail(b[1..]), y);
      SplitEqual("[", "[", Quoted(a[0]) + (PrintedTail(a[1..]) + x), Quoted(b[0]) + (PrintedTail(b[1..]) + y));
      QuotedPrefixFree(a[0], b[0], PrintedTail(a[1..]) + x, PrintedTail(b[1..]) + y);
      TailPrefixFree(a[1..], b[1..], x, y);
      assert a == [a[0]] + a[1..] && b == [b[0]] + b[1..];
    }
  }

  lemma FieldPrefixFree(f: Field, g: Field, x: string, y: string)
    requires Delimited(x) && Delimited(y) && PrintedField(f) + x == PrintedField(g) + y
    ensures f == g && x == y
  {
    FieldThen(f, x);
    FieldThen(g, y);
    QuotedPrefixFree(f.key, g.key, ":" + (Printed(f.value) + x), ":" + (Printed(g.value) + y));
    SplitEqual(":", ":", Printed(f.value) + x, Printed(g.value) + y);
    PrintedPrefixFree(f.value, g.value, x, y);
  }

  lemma FieldThen(f: Field, x: string)
    ensures PrintedField(f) + x == Quoted(f.key) + (":" + (Printed(f.value) + x))
  {}

  lemma TailStart(fields: seq<Field>)
    ensures Delimited(FieldsTail(fields))
    ensures fields == [] <==> FieldsTail(fields)[0] == '}'
    ensures fields != [] ==> FieldsTail(fields) == "," + (PrintedField(fields[0]) + FieldsTail(fields[1..]))
  {
    if fields != [] {
      AppendAssociates(",", PrintedField(fields[0]), FieldsTail(fields[1..]));
    }
  }

  lemma {:induction false} FieldsTailInjective(a: seq<Field>, b: seq<Field>)
    requires FieldsTail(a) == FieldsTail(b)
    ensures a == b
  {
    TailStart(a);
    TailStart(b);
    if a != [] {
      TailStart(a[1..]);
      TailStart(b[1..]);
      SplitEqual(",", ",", PrintedField(a[0]) + FieldsTail(a[1..]), PrintedField(b[0]) + FieldsTail(b[1..]));
      FieldPrefixFree(a[0], b[0], FieldsTail(a[1..]), FieldsTail(b[1..]));
      FieldsTailInjective(a[1..], b[1..]);
      assert a == [a[0]] + a[1..] && b == [b[0]] + b[1..];
    }
  }

  lemma ObjectStart(fields: seq<Field>)
    ensures |Stringified(fields)| >= 2
    ensures fields == [] <==> Stringified(fields)[1] == '}'
    ensures fields != [] ==> Stringified(fields) == "{" + (PrintedField(fields[0]) + FieldsTail(fields[1..]))
  {
    if fields != [] {
      AppendAssociates("{", PrintedField(fields[0]), FieldsTail(fields[1..]));
      assert PrintedField(fields[0])[0] == '"';
    }
  }

  /** No two lists of fields have the same text. */
  lemma StringifiedInjective(a: seq<Field>, b: seq<Field>)
    requires Stringified(a) == Stringified(b)
    ensures a == b
  {
    ObjectStart(a);
    ObjectStart(b);
    if a != [] {
      TailStart(a[1..]);
      TailStart(b[1..]);
      SplitEqual("{", "{", PrintedField(a[0]) + FieldsTail(a[1..]), PrintedField(b[0]) + FieldsTail(b[1..]));
      FieldPrefixFree(a[0], b[0], FieldsTail(a[1..]), FieldsTail(b[1..]));
      FieldsTailInjective(a[1..], b[1..]);
      assert a == [a[0]] + a[1..] && b == [b[0]] + b[1..];
    }
  }

  // ------------------------------------------------------------- the canonical text

  /** `order` is an insertion order of the configuration's keys. */
  ghost predicate KeysInOrder(order: seq<string>, config: Config) {
    Distinct(order) && Elements(order) == config.Keys
  }

  function FieldsFor(keys: seq<string>, config: Config): seq<Field>
    requires forall key | key in keys :: key in config
  {
    seq(|keys|, i requires 0 <= i < |keys| =>
      assert keys[i] in keys; Field(keys[i], Shown(keys[i], config[keys[i]])))
  }

  /** The loop that fills the sorted record, and its text. */
  method CanonicalConfigJson(order: seq<string>, config: Config) returns (text: string)
    requires KeysInOrder(order, config)
    ensures text == Canonical(order, config)
  {
    var keys := Sort(order);
    SortMembers(order);
    var sorted: seq<Field> := [];
    for i := 0 to |keys|
      invariant |sorted| == i
      invariant forall k | 0 <= k < i :: sorted[k] == FieldsFor(keys, config)[k]
    {
      assert keys[i] in keys;
      sorted := sorted + [Field(keys[i], Shown(keys[i], config[keys[i]]))];
    }
    assert sorted == FieldsFor(keys, config);
    text := Stringified(sorted);
  }

  function Canonical(order: seq<string>, config: Config): string
    requires KeysInOrder(order, config)
  {
    SortMembers(order);
    Stringified(FieldsFor(Sort(order), config))
  }

  function Redacted(config: Config): Config {
    map key | key in config :: Shown(key, config[key])
  }

  /** The two have the same keys, and the same values but for the three secrets. */
  ghost predicate SameButSecrets(config: Config, config': Config) {
    && config.Keys == config'.Keys
    && forall key | key in config && key !in {"internalToken", "googleClientSecret", "backupDatabaseUrl"} ::
         config[key] == config'[key]
  }

  /** The canonical text depends on nothing but the redacted configuration, and determines it:
      insertion order and the three secrets do not matter, every other field does. */
  lemma CanonicalExact(order: seq<string>, config: Config, order': seq<string>, config': Config)
    requires KeysInOrder(order, config) && KeysInOrder(order', config')
    ensures Canonical(order, config) == Canonical(order', config') <==> SameButSecrets(config, config')
  {
    CanonicalIsRedacted(order, config, order', config');
    RedactedMeans(config, config');
  }

  lemma RedactedMeans(config: Config, config': Config)
    ensures Redacted(config) == Redacted(config') <==> SameButSecrets(config, config')
  {
    assert Redacted(config).Keys == config.Keys && Redacted(config').Keys == config'.Keys;
    if Redacted(config) == Redacted(config') {
      forall key | key in config && !IsSecret(key) ensures config[key] == config'[key] {
        assert Redacted(config)[key] == Redacted(config')[key];
      }
    }
  }

  /** One field per key, in strictly ascending order of key, each with its value as it is, and the
      three secrets replaced by one fixed text. */
  ghost predicate CanonicalFields(fields: seq<Field>, config: Config) {
    && |fields| == |config|
    && (forall i, j | 0 <= i < j < |fields| :: Less(fields[i].key, fields[j].key))
    && (forall f | f in fields ::
          && f.key in config
          && f.value == if f.key in {"internalToken", "googleClientSecret", "backupDatabaseUrl"} then Text("<redacted>")
                        else config[f.key])
  }

  lemma CanonicalMeans(order: seq<string>, config: Config)
    requires KeysInOrder(order, config)
    ensures exists fields :: CanonicalFields(fields, config) && Canonical(order, config) == Stringified(fields)
  {
    SortMembers(order);
    SortOfDistinct(order);
    var keys, fields := Sort(order), FieldsFor(Sort(order), config);
    DistinctSize(order);
    assert |config| == |config.Keys|;
    forall i, j | 0 <= i < j < |fields| ensures Less(fields[i].key, fields[j].key) {
      assert fields[i].key == keys[i] && fields[j].key == keys[j];
    }
    forall f | f in fields ensures f.key in config && f.value == Shown(f.key, config[f.key]) {
      var i :| 0 <= i < |fields| && fields[i] == f;
      assert keys[i] in keys;
    }
    assert CanonicalFields(fields, config);
  }

  lemma {:induction false} DistinctSize(s: seq<string>)
    requires Distinct(s)
    ensures |Elements(s)| == |s|
  {
    if s != [] {
      DistinctSize(s[1..]);
      assert s == [s[0]] + s[1..];
      assert Elements(s) == {s[0]} + Elements(s[1..]);
    }
  }

  // What the printer writes is JSON.

  predicate Plain(c: char) {
    c != '"' && c != '\\' && c as int >= 0x20
  }

  /** A text without special characters stands between quotes as it is. */
  lemma {:induction false} PlainTextAsIs(s: string)
    requires forall c | c in s :: Plain(c)
    ensures Quoted(s) == "\"" + s + "\""
  {
    if s != "" {
      assert s[0] in s && forall c | c in s[1..] :: c in s;
      PlainTextAsIs(s[1..]);
      assert Unclosed(s[1..]) == Quoted(s[1..])[1..] == s[1..] + "\"";
      assert s == [s[0]] + s[1..];
    } else {
      assert Quoted(s) == "\"\"";
    }
  }

  /** Any text stands between quotes, its characters escaped one by one. */
  lemma CharactersOneByOne(s: string, k: nat)
    requires k < |s|
    ensures Quoted(s)[0] == '"' && Quoted(s)[|Quoted(s)| - 1] == '"'
    ensures Unclosed(s[k..]) == Escaped(s[k]) + Unclosed(s[k + 1..])
  {
    assert s[k..][1..] == s[k + 1..];
    UnclosedEnds(s);
  }

  lemma SpecialCharactersEscaped()
    ensures Escaped('"') == "\\\"" && Escaped('\\') == "\\\\" && Escaped('\n') == "\\n" && Escaped('\r') == "\\r"
    ensures Escaped('\t') == "\\t" && Escaped('\U{08}') == "\\b" && Escaped('\U{0C}') == "\\f"
  {}

  lemma ControlCharactersEscaped()
    ensures Escaped('\U{00}') == "\\u0000" && Escaped('\U{1F}') == "\\u001f"
  {}

  lemma {:induction false} UnclosedEnds(s: string)
    ensures Unclosed(s) != "" && Unclosed(s)[|Unclosed(s)| - 1] == '"'
  {
    if s != "" { UnclosedEnds(s[1..]); }
  }

  lemma ScalarsAsJson(n: nat)
    ensures Printed(Null) == "null" && Printed(Flag(true)) == "true" && Printed(Flag(false)) == "false"
    ensures Printed(Number(n)) == Decimal(n) && (n > 0 ==> Printed(Number(0 - n)) == "-" + Decimal(n))
  {}

  /** Lists stand in brackets, objects in braces, with commas between and a colon after each key. */
  lemma ListsAsJson(a: string, b: string)
    ensures Printed(Texts([])) == "[]" && Printed(Texts([a])) == "[" + Quoted(a) + "]"
    ensures Printed(Texts([a, b])) == "[" + Quoted(a) + "," + Quoted(b) + "]"
  {
    assert [a][1..] == [] && [a, b][1..] == [b] && [b][1..] == [];
    assert PrintedTail([b]) == "," + Quoted(b) + "]";
    AppendAssociates("[" + Quoted(a), "," + Quoted(b), "]");
    AppendAssociates("[" + Quoted(a), ",", Quoted(b));
  }

  lemma ObjectsAsJson(f: Field, g: Field)
    ensures Stringified([]) == "{}"
    ensures Stringified([f]) == "{" + (Quoted(f.key) + ":" + Printed(f.value)) + "}"
    ensures Stringified([f, g]) ==
            "{" + (Quoted(f.key) + ":" + Printed(f.value)) + "," + (Quoted(g.key) + ":" + Printed(g.value)) + "}"
  {
    assert [f][1..] == [] && [f, g][1..] == [g] && [g][1..] == [];
    assert FieldsTail([g]) == "," + PrintedField(g) + "}";
    AppendAssociates("{" + PrintedField(f), "," + PrintedField(g), "}");
    AppendAssociates("{" + PrintedField(f), ",", PrintedField(g));
  }

  lemma CanonicalIsRedacted(order: seq<string>, config: Config, order': seq<string>, config': Config)
    requires KeysInOrder(order, config) && KeysInOrder(order', config')
    ensures Canonical(order, config) == Canonical(order', config') <==> Redacted(config) == Redacted(config')
  {
    SortMembers(order);
    SortMembers(order');
    var keys, keys' := Sort(order), Sort(order');
    var a, b := FieldsFor(keys, config), FieldsFor(keys', config');
    if Redacted(config) == Redacted(config') {
      assert Redacted(config).Keys == config.Keys && Redacted(config').Keys == config'.Keys;
      DistinctSameElements(order, order');
      SortOfPermutation(order, order');
      forall i | 0 <= i < |keys| ensures a[i] == b[i] {
        assert keys[i] in keys;
        assert Redacted(config)[keys[i]] == Redacted(config')[keys[i]];
      }
      assert a == b;
    }
    if Stringified(a) == Stringified(b) {
      StringifiedInjective(a, b);
      SameFields(keys, config, keys', config');
    }
  }

  lemma SameFields(keys: seq<string>, config: Config, keys': seq<string>, config': Config)
    requires Elements(keys) == config.Keys && Elements(keys') == config'.Keys
    requires (forall key | key in keys :: key in config) && (forall key | key in keys' :: key in config')
    requires FieldsFor(keys, config) == FieldsFor(keys', config')
    ensures Redacted(config) == Redacted(config')
  {
    var a, b := FieldsFor(keys, config), FieldsFor(keys', config');
    assert |keys| == |a| && |keys'| == |b|;
    forall i | 0 <= i < |keys| ensures keys[i] == keys'[i] {
      assert a[i].key == keys[i] && b[i].key == keys'[i];
    }
    assert keys == keys';
    forall key | key in config ensures Redacted(config)[key] == Redacted(config')[key] {
      assert key in Elements(keys);
      var i :| 0 <= i < |keys| && keys[i] == key;
      assert a[i] == b[i];
    }
  }
}
