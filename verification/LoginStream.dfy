/** The client of the login event stream: chunks of decoded text arrive, complete blocks are cut
    off at blank lines, and each block yields at most one event. */
module LoginStream {
  import opened Options
  import opened Sequences
  import opened Strings

  const SEPARATOR := "\n\n"

  // --------------------------------------------------------- cutting at blank lines

  /** Where the separator first occurs in `s`, or `|s|` if it does not. */
  function FirstSeparator(s: string): (n: nat)
    ensures n <= |s|
  {
    if |s| < 2 then |s|
    else if s[0] == '\n' && s[1] == '\n' then 0
    else 1 + FirstSeparator(s[1..])
  }

  /** `s.split('\n\n')` */
  function Split(s: string): (parts: seq<string>)
    ensures parts != []
    decreases |s|
  {
    var n := FirstSeparator(s);
    if n + 2 <= |s| then [s[..n]] + Split(s[n + 2..]) else [s]
  }

  function Join(parts: seq<string>): string
    requires parts != []
  {
    if |parts| == 1 then parts[0] else parts[0] + SEPARATOR + Join(parts[1..])
  }

  ghost predicate SeparatorAt(s: string, i: int) {
    0 <= i && i + 1 < |s| && s[i] == '\n' && s[i + 1] == '\n'
  }

  ghost predicate HasSeparator(s: string) {
    exists i :: SeparatorAt(s, i)
  }

  /** The split into `parts` cuts at the leftmost place each time: a part followed by the
      separator has no earlier place to cut, and the rest has none at all. */
  ghost predicate CutLeftmost(parts: seq<string>)
    requires parts != []
  {
    && (forall k, i | 0 <= k < |parts| - 1 && 0 <= i < |parts[k]| :: !SeparatorAt(parts[k] + SEPARATOR, i))
    && !HasSeparator(parts[|parts| - 1])
  }

  lemma {:induction false} FirstSeparatorIsFirst(s: string)
    ensures FirstSeparator(s) + 2 <= |s| ==> SeparatorAt(s, FirstSeparator(s))
    ensures FirstSeparator(s) + 2 > |s| ==> FirstSeparator(s) == |s| && !HasSeparator(s)
    ensures forall i | 0 <= i < FirstSeparator(s) :: !SeparatorAt(s, i)
  {
    if |s| >= 2 && !(s[0] == '\n' && s[1] == '\n') {
      var t := s[1..];
      FirstSeparatorIsFirst(t);
      forall i | 0 <= i && (i < FirstSeparator(s) || FirstSeparator(t) == |t|) ensures !SeparatorAt(s, i) {
        if i > 0 { assert SeparatorAt(s, i) ==> SeparatorAt(t, i - 1); }
      }
    }
  }

  /** The first cut is determined by where the first separator is. */
  lemma FirstSeparatorUnique(s: string, n: int)
    requires SeparatorAt(s, n) && forall i | 0 <= i < n :: !SeparatorAt(s, i)
    ensures FirstSeparator(s) == n
  {
    FirstSeparatorIsFirst(s);
  }

  /** Splitting loses nothing and cuts leftmost. */
  lemma {:induction false} SplitIsCut(s: string)
    ensures Join(Split(s)) == s && CutLeftmost(Split(s))
    decreases |s|
  {
    var n := FirstSeparator(s);
    FirstSeparatorIsFirst(s);
    if n + 2 <= |s| {
      var rest := Split(s[n + 2..]);
      SplitIsCut(s[n + 2..]);
      assert s[..n] + SEPARATOR == s[..n + 2];
      assert s == s[..n] + SEPARATOR + s[n + 2..];
      assert Split(s)[1..] == rest;
      forall k, i | 0 <= k < |Split(s)| - 1 && 0 <= i < |Split(s)[k]|
        ensures !SeparatorAt(Split(s)[k] + SEPARATOR, i)
      {
        if k == 0 {
          assert SeparatorAt(s[..n + 2], i) ==> SeparatorAt(s, i);
        } else {
          assert Split(s)[k] == rest[k - 1];
        }
      }
    }
  }

  /** And it is the only way to do so: `Split` is determined by these two facts. */
  lemma {:induction false} CutIsSplit(parts: seq<string>)
    requires parts != [] && CutLeftmost(parts)
    ensures Split(Join(parts)) == parts
    decreases |parts|
  {
    var s := Join(parts);
    FirstSeparatorIsFirst(s);
    if |parts| > 1 {
      var n := |parts[0]|;
      var rest := parts[1..];
      assert s == parts[0] + SEPARATOR + Join(rest);
      assert SeparatorAt(s, n);
      forall i | 0 <= i < n ensures !SeparatorAt(s, i) {
        assert !SeparatorAt(parts[0] + SEPARATOR, i);
      }
      FirstSeparatorUnique(s, n);
      assert s[..n] == parts[0] && s[n + 2..] == Join(rest);
      forall k, i | 0 <= k < |rest| - 1 && 0 <= i < |rest[k]| ensures !SeparatorAt(rest[k] + SEPARATOR, i) {
        assert rest[k] == parts[k + 1];
      }
      CutIsSplit(rest);
      assert parts == [parts[0]] + rest;
    }
  }

  function Init<T>(s: seq<T>): seq<T>
    requires s != []
  {
    s[..|s| - 1]
  }

  function Last<T>(s: seq<T>): T
    requires s != []
  {
    s[|s| - 1]
  }

  /** Text that arrives later can only affect the last, still open, part. */
  lemma {:induction false} SplitMore(s: string, more: string)
    ensures Split(s + more) == Init(Split(s)) + Split(Last(Split(s)) + more)
    decreases |s|
  {
    var n := FirstSeparator(s);
    FirstSeparatorIsFirst(s);
    if n + 2 <= |s| {
      forall i | 0 <= i < n ensures !SeparatorAt(s + more, i) {
        assert !SeparatorAt(s, i);
      }
      assert SeparatorAt(s + more, n);
      FirstSeparatorUnique(s + more, n);
      assert (s + more)[..n] == s[..n] && (s + more)[n + 2..] == s[n + 2..] + more;
      var rest := Split(s[n + 2..]);
      SplitMore(s[n + 2..], more);
      assert Split(s) == [s[..n]] + rest;
      assert Init(Split(s)) == [s[..n]] + Init(rest) && Last(Split(s)) == Last(rest);
      AppendAssociates([s[..n]], Init(rest), Split(Last(rest) + more));
    } else {
      assert Init(Split(s)) == [];
    }
  }

  // ------------------------------------------------------------------ block parsing

  /** The event of one block, if it is a data line whose payload parses. */
  function BlockEvent<E>(block: string, parse: string -> Option<E>): seq<E> {
    var line := Trim(block);
    if !StartsWith(line, "data: ") then []
    else match parse(line[6..])
         case Some(event) => [event]
         case None => []
  }

  function Events<E>(blocks: seq<string>, parse: string -> Option<E>): seq<E> {
    if blocks == [] then [] else Events(Init(blocks), parse) + BlockEvent(Last(blocks), parse)
  }

  lemma {:induction false} EventsAppend<E>(a: seq<string>, b: seq<string>, parse: string -> Option<E>)
    ensures Events(a + b, parse) == Events(a, parse) + Events(b, parse)
  {
    if b == [] {
      assert a + b == a;
    } else {
      assert Init(a + b) == a + Init(b) && Last(a + b) == Last(b);
      EventsAppend(a, Init(b), parse);
      AppendAssociates(Events(a, parse), Events(Init(b), parse), BlockEvent(Last(b), parse));
    }
  }

  // --------------------------------------------------------------------- the stream

  function Text(chunks: seq<string>): string {
    if chunks == [] then "" else Text(Init(chunks)) + Last(chunks)
  }

  /** What reading `text` as a whole yields: the last part has no blank line after it and is
      never looked at. */
  function EventsOfText<E>(text: string, parse: string -> Option<E>): seq<E> {
    Events(Init(Split(text)), parse)
  }

  /** What holds between two chunks: `consumed` and `buf` are the parts of the text so far. */
  ghost predicate Caught<E>(text: string, consumed: seq<string>, buf: string, events: seq<E>,
                            parse: string -> Option<E>) {
    consumed + [buf] == Split(text) && events == Events(consumed, parse)
  }

  lemma CaughtUp<E>(text: string, chunk: string, consumed: seq<string>, buf: string, events: seq<E>,
                    parse: string -> Option<E>)
    requires Caught(text, consumed, buf, events, parse)
    ensures var parts := Split(buf + chunk);
            Caught(text + chunk, consumed + Init(parts), Last(parts), events + Events(Init(parts), parse), parse)
  {
    var parts := Split(buf + chunk);
    SplitMore(text, chunk);
    assert Init(consumed + [buf]) == consumed && Last(consumed + [buf]) == buf;
    assert consumed + parts == consumed + Init(parts) + [Last(parts)];
    EventsAppend(consumed, Init(parts), parse);
  }

  lemma CaughtMeans<E>(text: string, consumed: seq<string>, buf: string, events: seq<E>, parse: string -> Option<E>)
    requires Caught(text, consumed, buf, events, parse)
    ensures events == EventsOfText(text, parse)
    ensures Join(consumed + [buf]) == text && !HasSeparator(buf)
  {
    SplitIsCut(text);
    assert Init(consumed + [buf]) == consumed && Last(consumed + [buf]) == buf;
  }

  /** The generator, on the decoded chunks in the order in which they arrive. It yields exactly the
      events of the whole text, and between chunks it has lost nothing: the consumed blocks and the
      buffer, joined with blank lines, are all the text so far. */
  method LoginStream<E>(chunks: seq<string>, parse: string -> Option<E>)
    returns (events: seq<E>, buf: string, ghost consumed: seq<string>)
    ensures events == EventsOfText(Text(chunks), parse)
    ensures Join(consumed + [buf]) == Text(chunks) && !HasSeparator(buf)
    ensures events == Events(consumed, parse)
  {
    events, buf, consumed := [], "", [];
    for c := 0 to |chunks|
      invariant Caught(Text(chunks[..c]), consumed, buf, events, parse)
    {
      TextSnoc(chunks, c);
      CaughtUp(Text(chunks[..c]), chunks[c], consumed, buf, events, parse);
      buf := buf + chunks[c];
      var parts := Split(buf);
      buf := Last(parts);
      parts := Init(parts);
      var yielded := YieldBlocks(parts, parse);
      events := events + yielded;
      consumed := consumed + parts;
    }
    assert chunks[..|chunks|] == chunks;
    CaughtMeans(Text(chunks), consumed, buf, events, parse);
  }

  lemma TextSnoc(chunks: seq<string>, c: nat)
    requires c < |chunks|
    ensures Text(chunks[..c + 1]) == Text(chunks[..c]) + chunks[c]
  {
    assert Init(chunks[..c + 1]) == chunks[..c];
  }

  /** The inner loop, over the blocks one chunk has completed. */
  method YieldBlocks<E>(blocks: seq<string>, parse: string -> Option<E>) returns (events: seq<E>)
    ensures events == Events(blocks, parse)
  {
    events := [];
    for b := 0 to |blocks|
      invariant events == Events(blocks[..b], parse)
    {
      assert Init(blocks[..b + 1]) == blocks[..b];
      var line := Trim(blocks[b]);
      if StartsWith(line, "data: ") {
        match parse(line[6..])
        case Some(event) => events := events + [event];
        case None =>
      }
    }
    assert blocks[..|blocks|] == blocks;
  }

  /** More text never takes an event back, and adds none until the open block meets a blank line;
      so an event whose block the server does not close with one is never delivered. */
  lemma EventsOnlyAppended<E>(text: string, more: string, parse: string -> Option<E>)
    ensures EventsOfText(text, parse) <= EventsOfText(text + more, parse)
    ensures !HasSeparator(Last(Split(text)) + more) ==> EventsOfText(text + more, parse) == EventsOfText(text, parse)
  {
    var done, tail := Init(Split(text)), Split(Last(Split(text)) + more);
    SplitMore(text, more);
    assert Init(done + tail) == done + Init(tail);
    EventsAppend(done, Init(tail), parse);
    FirstSeparatorIsFirst(Last(Split(text)) + more);
    if !HasSeparator(Last(Split(text)) + more) {
      assert Init(tail) == [];
    }
  }

  // ----------------------------------------------------------- what one block yields

  /** Between white space, the block is `data: ` and a payload that does not end in white space. */
  ghost predicate IsDataBlock(block: string, left: string, payload: string, right: string) {
    && block == left + "data: " + payload + right
    && AllSpace(left) && AllSpace(right)
    && payload != "" && !IsSpace(payload[|payload| - 1])
  }

  /** A data block yields the event of its payload, or nothing if that does not parse. */
  lemma DataBlockYields<E>(block: string, left: string, payload: string, right: string, parse: string -> Option<E>)
    requires IsDataBlock(block, left, payload, right)
    ensures parse(payload).Some? ==> BlockEvent(block, parse) == [parse(payload).value]
    ensures parse(payload).None? ==> BlockEvent(block, parse) == []
  {
    var line := "data: " + payload;
    assert line[0] == 'd' && line[|line| - 1] == payload[|payload| - 1];
    assert block == left + line + right;
    TrimCuts(left, line, right);
    assert line[..6] == "data: " && line[6..] == payload;
  }

  /** Every other block, whatever else stands in it, yields nothing. */
  lemma OnlyDataBlocksYield<E>(block: string, parse: string -> Option<E>)
    ensures BlockEvent(block, parse) == [] || exists left, payload, right :: IsDataBlock(block, left, payload, right)
  {
    var line := Trim(block);
    var left, right := TrimLeaves(block);
    if StartsWith(line, "data: ") {
      var payload := line[6..];
      assert line == "data: " + payload;
      assert line[5] == line[..6][5] == ' ' && !IsSpace(line[|line| - 1]);
      assert payload != "" && line[|line| - 1] == payload[|payload| - 1];
      assert IsDataBlock(block, left, payload, right) by {
        assert block == left + ("data: " + payload) + right;
      }
    }
  }

  // --------------------------------------------------------- what the producer has to send

  /** Some block is handed over for parsing exactly when the text has two line feeds in a row. */
  lemma DeliversExactly(text: string)
    ensures Init(Split(text)) != [] <==> HasSeparator(text)
  {
    FirstSeparatorIsFirst(text);
  }

  /** So blank lines ending in CR LF are not recognised: such a stream yields nothing at all. */
  lemma CarriageReturnsHideBlankLines<E>(text: string, parse: string -> Option<E>)
    requires forall i, j | 0 <= i && j == i + 1 && j < |text| && text[j] == '\n' :: text[i] == '\r'
    ensures EventsOfText(text, parse) == []
  {
    forall i ensures !SeparatorAt(text, i) {
      assert 0 <= i && i + 1 < |text| && text[i + 1] == '\n' ==> text[i] == '\r';
    }
    DeliversExactly(text);
  }

  /** The text of one event, as the credential broker of the server writes it. */
  function BrokerText(payload: string): string {
    "data: " + payload + SEPARATOR
  }

  function BrokerStream(payloads: seq<string>): string {
    if payloads == [] then "" else BrokerText(payloads[0]) + BrokerStream(payloads[1..])
  }

  /** A payload is on one line and does not end in white space, as serialized objects never do. */
  predicate Payload(p: string) {
    p != "" && !IsSpace(p[|p| - 1]) && '\n' !in p
  }

  /** The events of the payloads that parse, in order. */
  function Parsed<E>(payloads: seq<string>, parse: string -> Option<E>): seq<E> {
    if payloads == [] then []
    else
      Parsed(Init(payloads), parse)
      + match parse(Last(payloads))
        case Some(event) => [event]
        case None => []
  }

  /** The blocks of a broker stream, and the empty rest after the last blank line. */
  function Blocks(payloads: seq<string>): seq<string> {
    seq(|payloads|, i requires 0 <= i < |payloads| => "data: " + payloads[i])
  }

  lemma {:induction false} BrokerStreamJoins(payloads: seq<string>)
    ensures BrokerStream(payloads) == Join(Blocks(payloads) + [""])
  {
    if payloads != [] {
      BrokerStreamJoins(payloads[1..]);
      var parts := Blocks(payloads) + [""];
      assert parts[1..] == Blocks(payloads[1..]) + [""];
    }
  }

  lemma BrokerBlocksCutLeftmost(payloads: seq<string>)
    requires forall p | p in payloads :: Payload(p)
    ensures CutLeftmost(Blocks(payloads) + [""])
  {
    var parts := Blocks(payloads) + [""];
    forall k, i | 0 <= k < |parts| - 1 && 0 <= i < |parts[k]| ensures !SeparatorAt(parts[k] + SEPARATOR, i) {
      assert payloads[k] in payloads && parts[k] == "data: " + payloads[k];
      if i < 6 {
        assert parts[k][i] == "data: "[i];
      } else {
        assert parts[k][i] == payloads[k][i - 6];
      }
    }
  }

  lemma BlockOfPayload<E>(p: string, parse: string -> Option<E>)
    requires Payload(p)
    ensures BlockEvent("data: " + p, parse) == Parsed([p], parse)
  {
    var block := "data: " + p;
    assert block[0] == 'd' && block[|block| - 1] == p[|p| - 1];
    assert Trim(block) == block;
    assert block[..6] == "data: " && block[6..] == p;
    assert Init([p]) == [];
  }

  lemma {:induction false} EventsOfBlocks<E>(payloads: seq<string>, parse: string -> Option<E>)
    requires forall p | p in payloads :: Payload(p)
    ensures Events(Blocks(payloads), parse) == Parsed(payloads, parse)
  {
    if payloads != [] {
      assert payloads == Init(payloads) + [Last(payloads)];
      EventsOfBlocks(Init(payloads), parse);
      assert Init(Blocks(payloads)) == Blocks(Init(payloads));
      assert Last(Blocks(payloads)) == "data: " + Last(payloads);
      BlockOfPayload(Last(payloads), parse);
      assert Init([Last(payloads)]) == [];
    }
  }

  /** What the broker writes is what the client yields: the events of all its payloads, in order. */
  lemma BrokerEventsArrive<E>(payloads: seq<string>, parse: string -> Option<E>)
    requires forall p | p in payloads :: Payload(p)
    ensures EventsOfText(BrokerStream(payloads), parse) == Parsed(payloads, parse)
  {
    BrokerStreamJoins(payloads);
    BrokerBlocksCutLeftmost(payloads);
    CutIsSplit(Blocks(payloads) + [""]);
    assert Init(Blocks(payloads) + [""]) == Blocks(payloads);
    EventsOfBlocks(payloads, parse);
  }

  /** The same event behind line ends of either kind: with line feeds it arrives, with CR LF it does
      not. */
  lemma LostBehindCarriageReturns<E>(parse: string -> Option<E>)
    requires parse("{}").Some?
    ensures EventsOfText("data: {}\n\n", parse) == [parse("{}").value]
    ensures EventsOfText("data: {}\r\n\r\n", parse) == []
  {
    var payloads := ["{}"];
    assert BrokerStream(payloads[1..]) == "";
    assert BrokerStream(payloads) == "data: {}\n\n";
    assert Init(payloads) == [];
    BrokerEventsArrive(payloads, parse);
    CarriageReturnsHideBlankLines("data: {}\r\n\r\n", parse);
  }
}
