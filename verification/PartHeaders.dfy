/** The header section of a received part, when it lies in one chunk: where it ends and what is read from it. */
module PartHeaders {
  import opened Bytes
  import opened Delimiters
  import opened MultipartText
  import opened MultipartParse
  import opened ReaderStates
  import opened MultipartRoundTrip
  import opened FormText
  import RH = ResponseHeader

  const TAB: byte := 9

  predicate IsCrlf(text: bytes, i: nat) {
    i + 2 <= |text| && text[i] == CR && text[i + 1] == LF
  }

  /** The first CR LF from i on, before any terminator; the text's length when there is none. */
  function CrlfFrom(text: bytes, i: nat): (k: nat)
    requires i <= |text|
    ensures i <= k <= |text| && (k < |text| ==> IsCrlf(text, k))
    decreases |text| - i
  {
    if i == |text| || text[i] == 0 then |text| else if IsCrlf(text, i) then i else CrlfFrom(text, i + 1)
  }

  /** A line that begins with a blank goes on with the one before it. */
  predicate Folded(text: bytes, i: nat) {
    i < |text| && (text[i] == SPACE || text[i] == TAB)
  }

  function HeaderOf(line: bytes): seq<RH.Header> {
    var p := RH.ParseHeader(line);
    if p.Good? then [p.header] else []
  }

  /**
   * The headers from the line that begins at `start` on, when no end of it was found before `next`. It
   * is told in three functions, so that a proof sees how a line is read only where it asks for it.
   */
  function HeadersFrom(text: bytes, start: nat, next: nat): seq<RH.Header>
    requires start <= next <= |text|
    decreases |text| - next, 2
  {
    HeadersMore(text, start, next)
  }

  function HeadersMore(text: bytes, start: nat, next: nat): seq<RH.Header>
    requires start <= next <= |text|
    decreases |text| - next, 1
  {
    HeadersNext(text, start, next)
  }

  function HeadersNext(text: bytes, start: nat, next: nat): seq<RH.Header>
    requires start <= next <= |text|
    decreases |text| - next, 0
  {
    var k := CrlfFrom(text, next);
    if k == |text| then []
    else if Folded(text, k + 2) then HeadersFrom(text, start, k + 2)
    else HeaderOf(text[start..k]) + HeadersFrom(text, k + 2, k + 2)
  }

  lemma HeadersUnfold(text: bytes, start: nat, next: nat)
    requires start <= next <= |text|
    ensures HeadersFrom(text, start, next) == HeadersNext(text, start, next)
  {
    assert HeadersFrom(text, start, next) == HeadersMore(text, start, next) == HeadersNext(text, start, next);
  }

  /** The loop over the header text of a part. */
  method ReadHeaders(text: bytes) returns (headers: seq<RH.Header>)
    ensures headers == HeadersFrom(text, 0, 0)
  {
    headers := [];
    var start, next := 0, 0;
    var crlf := CrlfFrom(text, next);
    while crlf != |text|
      invariant start <= next <= |text| && crlf == CrlfFrom(text, next)
      invariant headers + HeadersFrom(text, start, next) == HeadersFrom(text, 0, 0)
      decreases |text| - next
    {
      ghost var before := headers;
      HeadersUnfold(text, start, next);
      if !Folded(text, crlf + 2) {
        headers := headers + HeaderOf(text[start..crlf]);
        Assoc(before, HeaderOf(text[start..crlf]), HeadersFrom(text, crlf + 2, crlf + 2));
        start := crlf + 2;
      }
      next := crlf + 2;
      crlf := CrlfFrom(text, next);
    }
    HeadersUnfold(text, start, next);
  }

  // ---- what the multipart writer makes is read back ----

  /** A header that is written whole and whose value begins on its own line. */
  predicate Readable(h: KeyValue) {
    && h.key.Some? && h.value.Some?
    && var key, value := h.key.value, h.value.value;
    && key != [] && Free(key, COLON) && Free(key, CR) && Free(key, 0) && !RH.IsBlank(key[0])
    && value != [] && Free(value, CR) && Free(value, 0) && !RH.IsBlank(value[0])
  }

  function AsHeader(h: KeyValue): RH.Header {
    if h.key.Some? && h.value.Some? then RH.Header(h.key.value, h.value.value) else RH.Header([], [])
  }

  function HeadersIn(headers: seq<KeyValue>): seq<RH.Header> {
    seq(|headers|, i requires 0 <= i < |headers| => AsHeader(headers[i]))
  }

  /** A line without a CR or a terminator in it ends at the CR LF after it. */
  lemma {:induction false} LineEndsAt(text: bytes, i: nat, k: nat)
    requires i <= k && IsCrlf(text, k) && forall j :: i <= j < k ==> text[j] != CR && text[j] != 0
    ensures CrlfFrom(text, i) == k
    decreases k - i
  {
    if i < k {
      LineEndsAt(text, i + 1, k);
    }
  }

  lemma BareParses(key: bytes, value: bytes)
    requires Readable(KeyValue(Some(key), Some(value)))
    ensures HeaderOf(key + [COLON, SPACE] + value) == [RH.Header(key, value)]
  {
    ReadsAs(key, value);
    NoneFrom(value, CR, 0);
    assert value[..|value|] == value;
  }

  lemma ReadsAs(key: bytes, value: bytes)
    requires key != [] && Free(key, COLON)
    ensures var rest := RH.SkipBlanks(value);
      HeaderOf(key + [COLON, SPACE] + value) == [RH.Header(key, rest[..IndexFrom(rest, CR, 0)])]
  {
    var line := key + ([COLON] + ([SPACE] + value));
    assert key + [COLON, SPACE] + value == line;
    CutAt(key, COLON, [SPACE] + value);
    assert ([SPACE] + value)[1..] == value;
    assert RH.SkipBlanks([SPACE] + value) == RH.SkipBlanks(value);
  }

  // ---- what the parser makes of blanks ----

  /** Where the parser's loop over blanks stops, which does not look where the line ends. */
  function PastBlanks(text: bytes, i: nat): (k: nat)
    requires i <= |text|
    ensures i <= k <= |text|
    decreases |text| - i
  {
    if i < |text| && RH.IsBlank(text[i]) then PastBlanks(text, i + 1) else i
  }

  predicate AllBlank(text: bytes) {
    forall j :: 0 <= j < |text| ==> RH.IsBlank(text[j])
  }

  /** The parser stays within a line if and only if something in its value is not blank. */
  lemma {:induction false} StaysInLineIff(text: bytes, i: nat, end: nat)
    requires i <= end <= |text|
    ensures PastBlanks(text, i) < end <==> !AllBlank(text[i..end])
    decreases end - i
  {
    if i < end {
      assert text[i..end] == [text[i]] + text[i + 1..end];
      if RH.IsBlank(text[i]) {
        StaysInLineIff(text, i + 1, end);
        BlankFirst(text[i], text[i + 1..end]);
      } else {
        assert !RH.IsBlank(text[i..end][0]);
      }
    }
  }

  lemma BlankFirst(c: byte, rest: bytes)
    requires RH.IsBlank(c)
    ensures AllBlank([c] + rest) <==> AllBlank(rest)
  {
    if AllBlank([c] + rest) {
      forall j | 0 <= j < |rest|
        ensures RH.IsBlank(rest[j])
      {
        assert ([c] + rest)[j + 1] == rest[j];
      }
    }
  }

  lemma {:induction false} SkipShortens(text: bytes)
    ensures |RH.SkipBlanks(text)| <= |text|
    decreases |text|
  {
    if text != [] && RH.IsBlank(text[0]) {
      SkipShortens(text[1..]);
    }
  }

  /** And then a value comes back as it was if and only if it does not begin with a blank. */
  lemma SameValueIff(key: bytes, value: bytes)
    requires key != [] && Free(key, COLON) && Free(value, CR) && !AllBlank(value)
    ensures HeaderOf(key + [COLON, SPACE] + value) == [RH.Header(key, value)] <==> !RH.IsBlank(value[0])
  {
    ReadsAs(key, value);
    if RH.IsBlank(value[0]) {
      SkipShortens(value[1..]);
    } else {
      NoneFrom(value, CR, 0);
      assert value[..|value|] == value;
    }
  }

  lemma {:induction false} NoneFrom(text: bytes, c: byte, i: nat)
    requires Free(text, c) && i <= |text|
    ensures IndexFrom(text, c, i) == |text|
    decreases |text| - i
  {
    if i < |text| {
      NoneFrom(text, c, i + 1);
    }
  }

  /** At n the text has this line, ended by a CR LF, and another after it. */
  predicate HasLine(text: bytes, n: nat, line: bytes) {
    var k := n + |line|;
    k + 2 < |text| && text[n..k] == line && IsCrlf(text, k) && !Folded(text, k + 2)
  }

  lemma LineEnd(text: bytes, n: nat, line: bytes)
    requires HasLine(text, n, line) && Free(line, CR) && Free(line, 0)
    ensures CrlfFrom(text, n) == n + |line|
  {
    forall j | n <= j < n + |line|
      ensures text[j] != CR && text[j] != 0
    {
      assert text[j] == line[j - n];
    }
    LineEndsAt(text, n, n + |line|);
  }

  lemma OneLine(text: bytes, n: nat, line: bytes, got: seq<RH.Header>, next: nat)
    requires HasLine(text, n, line) && Free(line, CR) && Free(line, 0) && got == HeaderOf(line)
    requires next == n + |line| + 2
    ensures HeadersFrom(text, n, n) == got + HeadersFrom(text, next, next)
  {
    LineEnd(text, n, line);
    HeadersUnfold(text, n, n);
  }

  lemma LineInMiddle(text: bytes, pre: bytes, line: bytes, more: bytes)
    requires text == pre + (line + CRLF + more) && more != [] && !Folded(more, 0)
    ensures HasLine(text, |pre|, line)
  {
    var k := |pre| + |line|;
    assert text[k] == CR && text[k + 1] == LF && text[k + 2] == more[0];
  }

  /** The last line is blank. */
  lemma BlankLine(text: bytes, pre: bytes)
    requires text == pre + CRLF
    ensures HeadersFrom(text, |pre|, |pre|) == []
  {
    var k := |pre|;
    assert IsCrlf(text, k) && text[k..k] == [];
    LineEndsAt(text, k, k);
    HeadersUnfold(text, k, k);
    HeadersUnfold(text, k + 2, k + 2);
    assert RH.ParseHeader([]) == RH.NoHeader;
  }

  /** The lines from the i-th on. */
  function LinesFrom(headers: seq<KeyValue>, i: nat): bytes
    requires i <= |headers|
    decreases |headers| - i
  {
    if i == |headers| then [] else Line(headers[i]) + LinesFrom(headers, i + 1)
  }

  lemma {:induction false} LinesCut(headers: seq<KeyValue>, i: nat)
    requires i <= |headers|
    ensures Lines(headers[..i]) + LinesFrom(headers, i) == Lines(headers)
    decreases |headers| - i
  {
    if i == |headers| {
      assert headers[..i] == headers;
    } else {
      assert headers[..i + 1][..i] == headers[..i];
      Assoc(Lines(headers[..i]), Line(headers[i]), LinesFrom(headers, i + 1));
      LinesCut(headers, i + 1);
    }
  }

  /** What follows a header line begins with no blank. */
  lemma NextBegins(headers: seq<KeyValue>, i: nat)
    requires i <= |headers| && forall j :: 0 <= j < |headers| ==> Readable(headers[j])
    ensures var more := LinesFrom(headers, i) + CRLF; more != [] && !Folded(more, 0)
  {
    var more := LinesFrom(headers, i) + CRLF;
    if i < |headers| {
      assert Readable(headers[i]);
      assert more[0] == Line(headers[i])[0] == headers[i].key.value[0];
    } else {
      assert more == CRLF;
    }
  }

  lemma BareIsClean(h: KeyValue)
    requires Readable(h)
    ensures var bare := h.key.value + [COLON, SPACE] + h.value.value;
      Line(h) == bare + CRLF && Free(bare, CR) && Free(bare, 0)
  {
  }

  lemma FirstHeader(headers: seq<KeyValue>, i: nat)
    requires i < |headers|
    ensures HeadersIn(headers[i..]) == [AsHeader(headers[i])] + HeadersIn(headers[i + 1..])
  {
  }

  /** What is read from a line without its end. */
  lemma BareReads(h: KeyValue) returns (bare: bytes)
    requires Readable(h)
    ensures Line(h) == bare + CRLF && |Line(h)| == |bare| + 2 && Free(bare, CR) && Free(bare, 0)
    ensures HeaderOf(bare) == [AsHeader(h)]
  {
    bare := h.key.value + [COLON, SPACE] + h.value.value;
    BareIsClean(h);
    BareParses(h.key.value, h.value.value);
  }

  lemma ReadOne(text: bytes, pre: bytes, line: bytes, got: seq<RH.Header>, more: bytes, n: nat, next: nat)
    requires text == pre + (line + CRLF + more) && more != [] && !Folded(more, 0)
    requires Free(line, CR) && Free(line, 0) && got == HeaderOf(line)
    requires n == |pre| && next == n + |line| + 2
    ensures next <= |text| && HeadersFrom(text, n, n) == got + HeadersFrom(text, next, next)
  {
    LineInMiddle(text, pre, line, more);
    OneLine(text, n, line, got, next);
  }

  lemma Regrouped(a: bytes, b: bytes, c: bytes, d: bytes)
    ensures a + (b + c) + d == a + (b + (c + d))
  {
  }

  lemma CutThere(headers: seq<KeyValue>, i: nat)
    requires i < |headers|
    ensures Lines(headers) + CRLF
      == Lines(headers[..i]) + (Line(headers[i]) + (LinesFrom(headers, i + 1) + CRLF))
  {
    LinesCut(headers, i);
    Regrouped(Lines(headers[..i]), Line(headers[i]), LinesFrom(headers, i + 1), CRLF);
  }

  lemma OneMore(headers: seq<KeyValue>, i: nat)
    requires i < |headers|
    ensures |Lines(headers[..i + 1])| == |Lines(headers[..i])| + |Line(headers[i])|
  {
    assert headers[..i + 1][..i] == headers[..i];
  }

  /** The header lines of a part, and the blank line after them, are read as the headers they were made from. */
  lemma {:induction false} ReadBack(headers: seq<KeyValue>, text: bytes, i: nat, n: nat)
    requires i <= |headers| && forall j :: 0 <= j < |headers| ==> Readable(headers[j])
    requires text == Lines(headers) + CRLF && n == |Lines(headers[..i])|
    ensures n <= |text| && HeadersFrom(text, n, n) == HeadersIn(headers[i..])
    decreases |headers| - i
  {
    if i == |headers| {
      assert headers[..i] == headers;
      BlankLine(text, Lines(headers));
    } else {
      CutThere(headers, i);
      NextBegins(headers, i + 1);
      var bare := BareReads(headers[i]);
      var next := n + |bare| + 2;
      ReadOne(text, Lines(headers[..i]), bare, [AsHeader(headers[i])], LinesFrom(headers, i + 1) + CRLF, n, next);
      OneMore(headers, i);
      ReadBack(headers, text, i + 1, next);
      FirstHeader(headers, i);
    }
  }

  // ---- what the reader hands over ----

  /** No count is complete before the end of a scan. */
  lemma {:induction false} ScanStops(s: Reader, d: bytes, text: bytes, buffer: bytes, j: nat)
    requires d != [] && s.matched == Match(d, text) < |d| && 0 < j < Scan(s, d, buffer).1
    ensures Match(d, text + buffer[..j]) < |d|
    decreases |buffer|
  {
    var s1, next := Scan1(s, d, buffer[0]), text + [buffer[0]];
    ScanRest(s, d, buffer);
    CountOne(s, Parse(Preamble, text, []), d, buffer[0]);
    assert [buffer[0]] + buffer[1..j] == buffer[..j];
    Assoc(text, [buffer[0]], buffer[1..j]);
    if j == 1 {
      assert next + buffer[1..1] == next;
    } else {
      ScanStops(s1, d, next, buffer[1..], j - 1);
      assert buffer[1..][..j - 1] == buffer[1..j];
    }
  }

  /** When a part's header section lies in one chunk, the scan takes it up to its blank line and no further. */
  lemma HeaderInOneChunk(f: Format, s: Reader, p: Parse, buffer: bytes, h: nat)
    requires Settled(f, s, p) && p.phase.Header? && p.text == [] && FirstAt(HEADER_END, buffer, h)
    ensures var (t, k) := Scan(s, Delimiter(f, s), buffer); t.matched == 4 && k == h + 4
  {
    var d := HEADER_END;
    DelimiterAgrees(f, s, p);
    HeaderEndIsPlain();
    PlainFinds(d, buffer, h);
    var (t, k) := Scan(s, d, buffer);
    ScanMidway(s, p, d, buffer, []);
    assert With(p, buffer[..k]).text == buffer[..k] && [] + buffer[..k] == buffer[..k];
    assert p.text + buffer[..h + 4] == buffer[..h + 4];
    if h + 4 < k {
      ScanStops(s, d, p.text, buffer, h + 4);
    }
  }

  /** The headers of a part as the writer puts them come back when its header section lies in one chunk. */
  lemma PartHeadersComeBack(f: Format, s: Reader, p: Parse, headers: seq<KeyValue>, rest: bytes)
    requires Settled(f, s, p) && p.phase.Header? && p.text == []
    requires GoodHeaders(headers) && forall j :: 0 <= j < |headers| ==> Readable(headers[j])
    ensures var buffer := Lines(headers) + CRLF + rest; var (t, k) := Scan(s, Delimiter(f, s), buffer);
      t.matched == 4 && HeadersFrom(buffer[..k], 0, 0) == HeadersIn(headers)
  {
    var lines := Lines(headers);
    var buffer := lines + CRLF + rest;
    LinesEnd(headers);
    HeaderEnds(lines, rest);
    HeaderInOneChunk(f, s, p, buffer, |lines| - 2);
    assert buffer[..|lines| + 2] == lines + CRLF;
    ReadBack(headers, lines + CRLF, 0, 0);
    assert headers[..0] == [] && headers[0..] == headers;
  }
}
