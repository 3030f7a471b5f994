/** The response header callback: status line, header lines, blank line; and 100 Continue before them. */
module ResponseHeader {
  import opened Bytes
  import opened Delimiters
  import opened FormText
  import opened MultipartText

  datatype Header = Header(key: bytes, value: bytes)

  datatype Parsed = NoHeader | BadHeader | Good(header: Header)

  predicate IsBlank(c: byte) { c == 32 || c == 9 || c == CR || c == LF }

  function SkipBlanks(text: bytes): bytes
    decreases |text|
  {
    if text != [] && IsBlank(text[0]) then SkipBlanks(text[1..]) else text
  }

  /** A key up to the colon, and a value from the first character after it that is not blank up to a CR. */
  function ParseHeader(line: bytes): Parsed {
    var k := IndexFrom(line, COLON, 0);
    if k == |line| then NoHeader
    else if k == 0 then BadHeader
    else
      var rest := SkipBlanks(line[k + 1..]);
      Good(Header(line[..k], rest[..IndexFrom(rest, CR, 0)]))
  }

  /** The headers of good lines, in order; lines without a colon have none. */
  function Headers(lines: seq<bytes>): seq<Header> {
    if lines == [] then []
    else
      var p := ParseHeader(lines[|lines| - 1]);
      Headers(lines[..|lines| - 1]) + if p.Good? then [p.header] else []
  }

  lemma SkipsToValue(value: bytes)
    requires Free(value, CR) && (value != [] ==> !IsBlank(value[0]))
    ensures var rest := SkipBlanks([SPACE] + (value + CRLF));
      rest[..IndexFrom(rest, CR, 0)] == value
  {
    assert ([SPACE] + (value + CRLF))[1..] == value + CRLF;
    if value == [] {
      assert value + CRLF == CRLF && CRLF[1..] == [LF] && [LF][1..] == [];
      assert SkipBlanks([SPACE] + CRLF) == SkipBlanks(CRLF) == SkipBlanks([LF]) == [];
    } else {
      assert value + CRLF == value + ([CR] + [LF]);
      CutAt(value, CR, [LF]);
    }
  }

  lemma LineIs(key: bytes, value: bytes)
    ensures Line(KeyValue(Some(key), Some(value))) == key + ([COLON] + ([SPACE] + (value + CRLF)))
  {
    Assoc(key + [COLON, SPACE], value, CRLF);
    Assoc(key, [COLON, SPACE], value + CRLF);
    Assoc([COLON], [SPACE], value + CRLF);
    assert [COLON] + [SPACE] == [COLON, SPACE];
  }

  /** A line that is cut at its first colon. */
  lemma ParsesTo(line: bytes, key: bytes, tail: bytes, value: bytes)
    requires line == key + ([COLON] + tail) && key != [] && Free(key, COLON)
    requires var rest := SkipBlanks(tail); rest[..IndexFrom(rest, CR, 0)] == value
    ensures ParseHeader(line) == Good(Header(key, value))
  {
    CutAt(key, COLON, tail);
  }

  /** A header line as the multipart writer makes it is read as that key and that value. */
  lemma LineParses(key: bytes, value: bytes)
    requires key != [] && Free(key, COLON) && Free(value, CR) && (value != [] ==> !IsBlank(value[0]))
    ensures ParseHeader(Line(KeyValue(Some(key), Some(value)))) == Good(Header(key, value))
  {
    LineIs(key, value);
    SkipsToValue(value);
    ParsesTo(Line(KeyValue(Some(key), Some(value))), key, [SPACE] + (value + CRLF), value);
  }

  // ---- what is read from any line ----

  predicate Skipped(c: byte) { c as char in {' ', '\t', '\r', '\n'} }

  lemma {:induction false} SkipSplits(text: bytes) returns (blanks: bytes)
    ensures text == blanks + SkipBlanks(text) && (forall i :: 0 <= i < |blanks| ==> Skipped(blanks[i]))
    ensures SkipBlanks(text) != [] ==> !Skipped(SkipBlanks(text)[0])
    decreases |text|
  {
    if text != [] && IsBlank(text[0]) {
      blanks := SkipSplits(text[1..]);
      assert text == [text[0]] + text[1..] == [text[0]] + (blanks + SkipBlanks(text[1..]));
      blanks := [text[0]] + blanks;
    } else {
      blanks := [];
    }
  }

  lemma {:induction false} IndexSplits(text: bytes, c: byte, i: nat)
    requires i <= |text|
    ensures var k := IndexFrom(text, c, i);
      (forall j :: i <= j < k ==> text[j] != c) && (k < |text| ==> text[k] == c)
    decreases |text| - i
  {
    if i < |text| && text[i] != c {
      IndexSplits(text, c, i + 1);
    }
  }

  /** A line has no header if and only if it has no colon, and is an error if and only if it begins with one. */
  lemma NoHeaderIff(line: bytes)
    ensures ParseHeader(line) == NoHeader <==> Free(line, ':' as byte)
    ensures ParseHeader(line) == BadHeader <==> line != [] && line[0] as char == ':'
  {
    IndexSplits(line, COLON, 0);
  }

  /**
   * The header of any other line: the key is what precedes the first colon; the value begins at the first
   * byte after it that is not a blank, a tab, a CR or an LF, and ends before the next CR.
   */
  lemma HeaderIs(line: bytes) returns (key: bytes, blanks: bytes, value: bytes, after: bytes)
    requires !Free(line, ':' as byte) && line[0] as char != ':'
    ensures line == key + [':' as byte] + blanks + value + after && key != [] && Free(key, ':' as byte)
    ensures (forall i :: 0 <= i < |blanks| ==> Skipped(blanks[i])) && (value != [] ==> !Skipped(value[0]))
    ensures Free(value, '\r' as byte) && (after != [] ==> value != [] && after[0] as char == '\r')
    ensures ParseHeader(line) == Good(Header(key, value))
  {
    IndexSplits(line, COLON, 0);
    var k := IndexFrom(line, COLON, 0);
    key := line[..k];
    blanks := SkipSplits(line[k + 1..]);
    var rest := SkipBlanks(line[k + 1..]);
    IndexSplits(rest, CR, 0);
    var n := IndexFrom(rest, CR, 0);
    value, after := rest[..n], rest[n..];
    LineJoined(line, k, blanks, rest, n);
  }

  lemma LineJoined(line: bytes, k: nat, blanks: bytes, rest: bytes, n: nat)
    requires k < |line| && line[k + 1..] == blanks + rest && n <= |rest|
    ensures line == line[..k] + [line[k]] + blanks + rest[..n] + rest[n..]
  {
    assert rest == rest[..n] + rest[n..];
    assert line == line[..k] + [line[k]] + line[k + 1..];
  }

  lemma OneLineMore(lines: seq<bytes>, line: bytes, headers: seq<Header>, h: Header)
    requires ParseHeader(line) == Good(h) && Headers(lines) == headers
    ensures Headers(lines + [line]) == headers + [h]
  {
    assert (lines + [line])[..|lines|] == lines;
  }

  lemma WrittenLast(headers: seq<Header>, n: nat)
    requires |headers| == n + 1
    ensures Written(headers)
      == Written(headers[..n]) + [Line(KeyValue(Some(headers[n].key), Some(headers[n].value)))]
  {
  }

  /** Lines as the library writes them are read as their headers, in order. */
  lemma {:induction false} HeadersInOrder(headers: seq<Header>)
    requires forall i :: 0 <= i < |headers| ==> Writable(headers[i])
    ensures Headers(Written(headers)) == headers
  {
    if headers != [] {
      var n := |headers| - 1;
      var h := headers[n];
      HeadersInOrder(headers[..n]);
      LineParses(h.key, h.value);
      WrittenLast(headers, n);
      OneLineMore(Written(headers[..n]), Line(KeyValue(Some(h.key), Some(h.value))), headers[..n], h);
      assert headers == headers[..n] + [h];
    }
  }

  predicate Writable(h: Header) {
    h.key != [] && Free(h.key, COLON) && Free(h.value, CR) && (h.value != [] ==> !IsBlank(h.value[0]))
  }

  function Written(headers: seq<Header>): seq<bytes> {
    seq(|headers|, i requires 0 <= i < |headers| => Line(KeyValue(Some(headers[i].key), Some(headers[i].value))))
  }

  // ---- the callback, on values ----

  /** What is made of a status line: how far the scan got. */
  datatype Scan = Nothing | CodeOnly(code: int) | Both(code: int, reason: bytes)

  datatype Call = Call(code: int, reason: bytes, headers: seq<Header>)

  /** `calls` are the calls of the response callback; `error` keeps the first parse error. */
  datatype Response = Response(code: int, reason: bytes, headers: seq<Header>, calls: seq<Call>, error: bool)

  /** Whether there is a response callback, and whether the data goes to the multipart reader. */
  datatype Wants = Wants(callback: bool, multipart: bool)

  const START: Response := Response(0, [], [], [], false)

  predicate EndsHeaders(line: bytes) { CRLF <= line }

  function StatusLine(r: Response, scan: Scan): (Response, bool) {
    match scan
    case Nothing => (r, false)
    case CodeOnly(code) => (r.(code := code), false)
    case Both(code, reason) => (r.(code := code, reason := reason), true)
  }

  /** `accepts` is whether the response callback, if it is called, succeeds. */
  function AtBlankLine(wants: Wants, r: Response, accepts: Call -> bool): (Response, bool) {
    if r.code == 100 then (r.(code := 0, reason := [], headers := []), true)
    else if wants.callback then
      var call := Call(r.code, r.reason, r.headers);
      (r.(calls := r.calls + [call]), accepts(call))
    else (r, true)
  }

  /** One line, and whether the callback accepts it. `scan` is what scanning it as a status line gives. */
  function OnLine(wants: Wants, r: Response, line: bytes, scan: Scan, accepts: Call -> bool): (Response, bool) {
    if r.code == 0 && r.reason == [] then StatusLine(r, scan)
    else if !wants.callback && !wants.multipart then (r, true)
    else HeaderLine(wants, r, line, accepts)
  }

  function HeaderLine(wants: Wants, r: Response, line: bytes, accepts: Call -> bool): (Response, bool) {
    match ParseHeader(line)
    case BadHeader => (r.(error := true), false)
    case NoHeader => if EndsHeaders(line) then AtBlankLine(wants, r, accepts) else (r, true)
    case Good(h) =>
      var s := r.(headers := r.headers + [h]);
      if EndsHeaders(line) then AtBlankLine(wants, s, accepts) else (s, true)
  }

  /** What scanning a line as a status line gives, and what the response callback says to a call. */
  datatype Env = Env(scan: bytes -> Scan, accepts: Call -> bool)

  function OnLines(wants: Wants, r: Response, lines: seq<bytes>, env: Env): (Response, bool) {
    if lines == [] then (r, true)
    else
      var (s, ok) := OnLines(wants, r, lines[..|lines| - 1], env);
      if ok then OnLine(wants, s, lines[|lines| - 1], env.scan(lines[|lines| - 1]), env.accepts) else (s, false)
  }

  /** Whether anybody wants the headers. */
  predicate Listens(wants: Wants) { wants.callback || wants.multipart }

  // ---- blocks ----

  /** A status line with a reason, header lines, and then a line that begins with its end. */
  datatype Block = Block(status: bytes, lines: seq<bytes>, blank: bytes)

  predicate WellFormed(b: Block, env: Env) {
    && env.scan(b.status).Both? && env.scan(b.status).reason != []
    && (forall line :: line in b.lines ==> !EndsHeaders(line) && ParseHeader(line) != BadHeader)
    && Blank(b.blank)
  }

  /** The first two bytes are all that is looked at. */
  predicate Blank(line: bytes) {
    2 <= |line| && line[0] as char == '\r' && line[1] as char == '\n' && Free(line, ':' as byte)
  }

  function Text(b: Block): seq<bytes> { [b.status] + b.lines + [b.blank] }

  function Texts(blocks: seq<Block>): seq<bytes> {
    if blocks == [] then [] else Texts(blocks[..|blocks| - 1]) + Text(blocks[|blocks| - 1])
  }

  lemma {:induction false} OnLinesAppend(wants: Wants, r: Response, xs: seq<bytes>, ys: seq<bytes>, env: Env)
    ensures var (s, ok) := OnLines(wants, r, xs, env);
      OnLines(wants, r, xs + ys, env) == if ok then OnLines(wants, s, ys, env) else (s, false)
    decreases |ys|
  {
    if ys == [] {
      assert xs + ys == xs;
    } else {
      OnLinesAppend(wants, r, xs, ys[..|ys| - 1], env);
      assert (xs + ys)[..|xs + ys| - 1] == xs + ys[..|ys| - 1];
    }
  }

  lemma OneLine(wants: Wants, r: Response, line: bytes, env: Env)
    ensures OnLines(wants, r, [line], env) == OnLine(wants, r, line, env.scan(line), env.accepts)
  {
    assert [line][..0] == [];
  }

  lemma {:induction false} HeaderLines(wants: Wants, r: Response, lines: seq<bytes>, env: Env)
    requires Listens(wants) && r.reason != []
    requires forall line :: line in lines ==> !EndsHeaders(line) && ParseHeader(line) != BadHeader
    ensures OnLines(wants, r, lines, env) == (r.(headers := r.headers + Headers(lines)), true)
    decreases |lines|
  {
    if lines == [] {
      assert r.headers + [] == r.headers;
    } else {
      HeaderLines(wants, r, lines[..|lines| - 1], env);
      var h := ParseHeader(lines[|lines| - 1]);
      assert lines[|lines| - 1] in lines;
      Assoc(r.headers, Headers(lines[..|lines| - 1]), if h.Good? then [h.header] else []);
      assert r.headers + Headers(lines[..|lines| - 1]) + [] == r.headers + Headers(lines[..|lines| - 1]);
    }
  }

  /** Where a whole block leads. */
  lemma WholeBlock(wants: Wants, r: Response, b: Block, env: Env)
    requires Listens(wants) && WellFormed(b, env) && r.code == 0 && r.reason == [] && r.headers == []
    ensures var status := env.scan(b.status);
      OnLines(wants, r, Text(b), env)
        == AtBlankLine(wants, Response(status.code, status.reason, Headers(b.lines), r.calls, r.error), env.accepts)
  {
    var s := r.(code := env.scan(b.status).code, reason := env.scan(b.status).reason);
    OneLine(wants, r, b.status, env);
    HeaderLines(wants, s, b.lines, env);
    assert [] + Headers(b.lines) == Headers(b.lines);
    OneLine(wants, s.(headers := Headers(b.lines)), b.blank, env);
    NoHeaderIff(b.blank);
    assert EndsHeaders(b.blank);
    OnLinesAppend(wants, r, [b.status], b.lines, env);
    OnLinesAppend(wants, r, [b.status] + b.lines, [b.blank], env);
  }

  lemma {:induction false} InterimBlocks(wants: Wants, r: Response, blocks: seq<Block>, env: Env)
    requires Listens(wants) && r == START
    requires forall b :: b in blocks ==> WellFormed(b, env) && env.scan(b.status).code == 100
    ensures OnLines(wants, r, Texts(blocks), env) == (r, true)
    decreases |blocks|
  {
    if blocks != [] {
      var last := blocks[|blocks| - 1];
      assert last in blocks;
      InterimBlocks(wants, r, blocks[..|blocks| - 1], env);
      WholeBlock(wants, r, last, env);
      OnLinesAppend(wants, r, Texts(blocks[..|blocks| - 1]), Text(last), env);
    }
  }

  /**
   * Any number of 100 Continue blocks and a final one: one call of the response callback, with the
   * final code and reason and exactly the final block's headers; the transfer goes on if it succeeds.
   */
  lemma OneCallback(wants: Wants, r: Response, interim: seq<Block>, final: Block, env: Env)
    requires wants.callback && r == START
    requires forall b :: b in interim ==> WellFormed(b, env) && env.scan(b.status).code == 100
    requires WellFormed(final, env) && env.scan(final.status).code != 100
    ensures var (s, ok) := OnLines(wants, r, Texts(interim) + Text(final), env);
      var call := Call(env.scan(final.status).code, env.scan(final.status).reason, Headers(final.lines));
      !s.error && s.calls == [call] && ok == env.accepts(call)
  {
    InterimBlocks(wants, r, interim, env);
    WholeBlock(wants, r, final, env);
    OnLinesAppend(wants, r, Texts(interim), Text(final), env);
  }

  /** Where the data goes to the multipart reader and nobody is to be called, the final block is kept. */
  lemma KeptForMultipart(wants: Wants, r: Response, interim: seq<Block>, final: Block, env: Env)
    requires !wants.callback && wants.multipart && r == START
    requires forall b :: b in interim ==> WellFormed(b, env) && env.scan(b.status).code == 100
    requires WellFormed(final, env) && env.scan(final.status).code != 100
    ensures OnLines(wants, r, Texts(interim) + Text(final), env)
      == (Response(env.scan(final.status).code, env.scan(final.status).reason, Headers(final.lines), [], false), true)
  {
    InterimBlocks(wants, r, interim, env);
    WholeBlock(wants, r, final, env);
    OnLinesAppend(wants, r, Texts(interim), Text(final), env);
  }

  // ---- lines that are refused, and lines that nobody wants ----

  /**
   * Wherever a status line is due, the line is refused if and only if its scan does not find both the code
   * and the reason; then nothing is called and no later line is looked at, and of the line only a code that
   * was found is kept. Otherwise both are kept, and the other lines follow.
   */
  lemma StatusLineDecides(wants: Wants, r: Response, first: bytes, rest: seq<bytes>, env: Env)
    requires r.code == 0 && r.reason == []
    ensures OnLines(wants, r, [first], env).1 <==> env.scan(first).Both?
    ensures var scan := env.scan(first);
      OnLines(wants, r, [first] + rest, env)
        == if scan.Both? then OnLines(wants, r.(code := scan.code, reason := scan.reason), rest, env)
           else (if scan.CodeOnly? then r.(code := scan.code) else r, false)
  {
    OneLine(wants, r, first, env);
    OnLinesAppend(wants, r, [first], rest, env);
  }

  /** So also after 100 Continue. */
  lemma BadStatusAfterInterim(wants: Wants, r: Response, interim: seq<Block>, first: bytes, rest: seq<bytes>, env: Env)
    requires Listens(wants) && r == START
    requires forall b :: b in interim ==> WellFormed(b, env) && env.scan(b.status).code == 100
    requires !env.scan(first).Both?
    ensures var (s, ok) := OnLines(wants, r, Texts(interim) + ([first] + rest), env); !ok && s.calls == []
  {
    InterimBlocks(wants, r, interim, env);
    StatusLineDecides(wants, r, first, rest, env);
    OnLinesAppend(wants, r, Texts(interim), [first] + rest, env);
  }

  /**
   * After a status line the first line that begins with a colon is refused: the error is noted, the headers
   * before it are kept, nothing is called and no later line is looked at.
   */
  lemma ColonRefuses(wants: Wants, r: Response, lines: seq<bytes>, bad: bytes, rest: seq<bytes>, env: Env)
    requires Listens(wants) && r.reason != [] && bad != [] && bad[0] as char == ':'
    requires forall line :: line in lines ==> !EndsHeaders(line) && ParseHeader(line) != BadHeader
    ensures OnLines(wants, r, lines + ([bad] + rest), env)
      == (r.(headers := r.headers + Headers(lines), error := true), false)
  {
    HeaderLines(wants, r, lines, env);
    NoHeaderIff(bad);
    var s := r.(headers := r.headers + Headers(lines));
    OneLine(wants, s, bad, env);
    OnLinesAppend(wants, s, [bad], rest, env);
    OnLinesAppend(wants, r, lines, [bad] + rest, env);
  }

  /** Where nobody wants the headers, whatever follows the status line is accepted and changes nothing. */
  lemma {:induction false} NobodyListens(wants: Wants, r: Response, lines: seq<bytes>, env: Env)
    requires !Listens(wants) && (r.code != 0 || r.reason != [])
    ensures OnLines(wants, r, lines, env) == (r, true)
    decreases |lines|
  {
    if lines != [] {
      NobodyListens(wants, r, lines[..|lines| - 1], env);
    }
  }

  // ---- the callback as the source writes it ----

  const CHUNK: nat := 8

  /** The least multiple of eight above n. */
  function Above(n: nat): (m: nat)
    ensures n < m <= n + 8 && m % 8 == 0
  {
    n - n % 8 + 8
  }

  /** The array of headers, which grows by a chunk whenever its count is a multiple of one. */
  class HeaderArray {
    var keyValue: array?<Header>
    var count: nat

    /** A whole number of chunks, so that there is room unless the array is about to grow, and one to spare at most. */
    predicate Valid()
      reads this
    {
      if keyValue == null then count == 0
      else count <= keyValue.Length <= Above(count) && keyValue.Length % CHUNK == 0
    }

    function Items(): seq<Header>
      requires Valid()
      reads this, keyValue
    {
      if keyValue == null then [] else keyValue[..count]
    }

    constructor ()
      ensures Valid() && Items() == [] && keyValue == null
    {
      keyValue, count := null, 0;
    }

    method Grow()
      requires Valid()
      modifies this
      ensures Valid() && count == old(count) && Items() == old(Items())
      ensures keyValue != null && count < keyValue.Length == Above(count)
      ensures keyValue == old(keyValue) || fresh(keyValue)
    {
      if keyValue == null || count % CHUNK == 0 {
        var longer := new Header[count + CHUNK](_ => Header([], []));
        if keyValue != null {
          forall i | 0 <= i < count {
            longer[i] := keyValue[i];
          }
        }
        keyValue := longer;
      }
    }

    /** One line: grows if need be, and appends the header if the line has one. */
    method Parse(line: bytes) returns (ok: bool)
      requires Valid()
      modifies this, keyValue
      ensures Valid() && ok == (ParseHeader(line) != BadHeader)
      ensures keyValue != null && keyValue.Length == Above(old(count))
      ensures Items() == if ParseHeader(line).Good? then old(Items()) + [ParseHeader(line).header] else old(Items())
      ensures keyValue == old(keyValue) || fresh(keyValue)
    {
      Grow();
      var p := ParseHeader(line);
      if p.Good? {
        keyValue[count] := p.header;
        count := count + 1;
      }
      ok := p != BadHeader;
    }

    method Reset()
      modifies this
      ensures Valid() && Items() == [] && keyValue == null
    {
      keyValue, count := null, 0;
    }
  }

  class Request {
    const wants: Wants
    var code: int
    var reason: bytes
    const headers: HeaderArray
    var calls: seq<Call>
    var error: bool

    predicate Valid()
      reads this, headers
    {
      headers.Valid()
    }

    function State(): Response
      requires Valid()
      reads this, headers, headers.keyValue
    {
      Response(code, reason, headers.Items(), calls, error)
    }

    constructor (wants: Wants)
      ensures Valid() && fresh(headers) && this.wants == wants && State() == START && headers.keyValue == null
    {
      this.wants := wants;
      code, reason, calls, error := 0, [], [], false;
      headers := new HeaderArray();
    }

    method StatusLineScanned(scan: Scan) returns (ok: bool)
      requires Valid()
      modifies this
      ensures Valid() && (State(), ok) == StatusLine(old(State()), scan)
    {
      match scan
      case Nothing => ok := false;
      case CodeOnly(c) => code, ok := c, false;
      case Both(c, text) => code, reason, ok := c, text, true;
    }

    method BlankLine(accepts: Call -> bool) returns (ok: bool)
      requires Valid()
      modifies this, headers
      ensures Valid() && (State(), ok) == AtBlankLine(wants, old(State()), accepts)
      ensures headers.keyValue == old(headers.keyValue) || headers.keyValue == null
    {
      ok := true;
      if code == 100 {
        code, reason := 0, [];
        headers.Reset();
      } else if wants.callback {
        var call := Call(code, reason, headers.Items());
        calls := calls + [call];
        ok := accepts(call);
      }
    }

    /** The callback for one line; false stops the transfer. */
    method OnHeader(line: bytes, scan: Scan, accepts: Call -> bool) returns (ok: bool)
      requires Valid()
      modifies this, headers, headers.keyValue
      ensures Valid() && (State(), ok) == OnLine(wants, old(State()), line, scan, accepts)
      ensures headers.keyValue == old(headers.keyValue) || headers.keyValue == null || fresh(headers.keyValue)
    {
      if code == 0 && reason == [] {
        ok := StatusLineScanned(scan);
        return;
      }
      if !wants.callback && !wants.multipart {
        return true;
      }
      ok := LineOfHeaders(line, accepts);
    }

    /** A line after the status line, where somebody wants the headers. */
    method LineOfHeaders(line: bytes, accepts: Call -> bool) returns (ok: bool)
      requires Valid()
      modifies this, headers, headers.keyValue
      ensures Valid() && (State(), ok) == HeaderLine(wants, old(State()), line, accepts)
      ensures headers.keyValue == old(headers.keyValue) || headers.keyValue == null || fresh(headers.keyValue)
    {
      ok := headers.Parse(line);
      if !ok {
        error := true;
        return;
      }
      if CRLF <= line {
        ok := BlankLine(accepts);
      }
    }
  }
}
