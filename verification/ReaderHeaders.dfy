/** The header sections of all parts of a message, when none of them is cut by the end of a chunk. */
module ReaderHeaders {
  import opened Bytes
  import opened Delimiters
  import opened MultipartText
  import opened MultipartParse
  import opened MultipartUpload
  import opened MultipartRoundTrip
  import opened ReaderStates
  import opened ReaderPieces
  import opened PartHeaders
  import RH = ResponseHeader

  // ---- header sections, byte by byte ----

  /** The header section that a byte completes. */
  function Ended(f: Format, p: Parse, c: byte): seq<bytes> {
    if p.phase.Header? && Match(HEADER_END, p.text + [c]) == 4 then [p.text + [c]] else []
  }

  /** Those that the input completes; in three functions, as `Feed` is. */
  function Sections(f: Format, p: Parse, input: bytes): seq<bytes>
    decreases |input|, 2
  {
    if input == [] then [] else SectionsMore(f, p, input)
  }

  function SectionsMore(f: Format, p: Parse, input: bytes): seq<bytes>
    requires input != []
    decreases |input|, 1
  {
    SectionsLast(f, p, input)
  }

  function SectionsLast(f: Format, p: Parse, input: bytes): seq<bytes>
    requires input != []
    decreases |input|, 0
  {
    var n := |input| - 1;
    Sections(f, p, input[..n]) + Ended(f, Feed(f, p, input[..n]), input[n])
  }

  lemma SectionsStep(f: Format, p: Parse, input: bytes, c: byte)
    ensures Sections(f, p, input + [c]) == Sections(f, p, input) + Ended(f, Feed(f, p, input), c)
  {
    var all := input + [c];
    assert all[..|input|] == input;
    assert Sections(f, p, all) == SectionsMore(f, p, all) == SectionsLast(f, p, all);
  }

  lemma {:induction false} SectionsAppend(f: Format, p: Parse, xs: bytes, ys: bytes)
    ensures Sections(f, p, xs + ys) == Sections(f, p, xs) + Sections(f, Feed(f, p, xs), ys)
    decreases |ys|
  {
    if ys == [] {
      assert xs + ys == xs;
    } else {
      var n, q := |ys| - 1, Feed(f, p, xs);
      assert ys[..n] + [ys[n]] == ys;
      SectionsAppend(f, p, xs, ys[..n]);
      SectionsStep(f, q, ys[..n], ys[n]);
      SectionsStep(f, p, xs + ys[..n], ys[n]);
      FeedAppend(f, p, xs, ys[..n]);
      Assoc(xs, ys[..n], [ys[n]]);
      Assoc(Sections(f, p, xs), Sections(f, q, ys[..n]), Ended(f, Feed(f, q, ys[..n]), ys[n]));
    }
  }

  /** Bytes without a complete count before the last of them complete at most the section they are in. */
  lemma {:induction false} SectionsScan(f: Format, p: Parse, input: bytes)
    requires input != []
    requires forall j :: 0 < j < |input| ==>
      Match(DelimiterOf(f, p.phase), p.text + input[..j]) < |DelimiterOf(f, p.phase)|
    ensures Sections(f, p, input)
      == if p.phase.Header? && Match(HEADER_END, p.text + input) == 4 then [p.text + input] else []
    decreases |input|
  {
    var n := |input| - 1;
    var before := input[..n];
    assert before + [input[n]] == input;
    SectionsStep(f, p, before, input[n]);
    Assoc(p.text, before, [input[n]]);
    if n > 0 {
      assert forall j :: 0 < j < n ==> before[..j] == input[..j];
      FeedScan(f, p, before);
      SectionsScan(f, p, before);
      assert Match(DelimiterOf(f, p.phase), p.text + input[..n]) < |DelimiterOf(f, p.phase)|;
    } else {
      FeedNone(f, p);
      assert p.text + before == p.text;
    }
  }

  // ---- what the reader hands to the parser ----

  /**
   * The texts that a read call hands to the header parser, if no header section began in an earlier
   * call: of each section that is completed, what was scanned of the buffer for it.
   */
  function HandedOver(f: Format, s: Reader, buffer: bytes): seq<bytes>
    decreases |buffer|, 1
  {
    var d := Delimiter(f, s);
    var (t, k) := Scan(s, d, buffer);
    if k == 0 then [] else HandedMore(f, s, t, d, buffer, k)
  }

  function HandedMore(f: Format, s: Reader, t: Reader, d: bytes, buffer: bytes, k: nat): seq<bytes>
    requires 0 < k <= |buffer|
    decreases |buffer|, 0
  {
    (if s.needHeader && t.matched == |d| then [buffer[..k]] else [])
    + HandedOver(f, Settle(f, t, d, buffer, k), buffer[k..])
  }

  /** A header section is handed over as a whole: none of it came in an earlier call. */
  predicate AtSectionStart(p: Parse) {
    p.phase.Header? ==> p.text == []
  }

  lemma PortionHands(f: Format, s: Reader, p: Parse, d: bytes, buffer: bytes)
    requires Settled(f, s, p) && !p.phase.Done? && d == Delimiter(f, s) && AtSectionStart(p)
    requires buffer != [] && !Swallowed(f, p, buffer)
    ensures var (t, k) := Scan(s, d, buffer);
      && 0 < k <= |buffer|
      && Sections(f, p, buffer[..k]) == if s.needHeader && t.matched == |d| then [buffer[..k]] else []
  {
    DelimiterAgrees(f, s, p);
    var (t, k) := Scan(s, d, buffer);
    CountsAfter(f, s, p, d, buffer);
    NotBeforeTheEnd(s, d, p.text, buffer, k);
    SectionsScan(f, p, buffer[..k]);
    if p.phase.Header? {
      NothingBefore(buffer[..k]);
    }
  }

  lemma NotBeforeTheEnd(s: Reader, d: bytes, text: bytes, buffer: bytes, k: nat)
    requires d != [] && s.matched == Match(d, text) < |d| && k == Scan(s, d, buffer).1
    ensures forall j :: 0 < j < k ==> Match(d, text + buffer[..k][..j]) < |d|
  {
    forall j | 0 < j < k
      ensures Match(d, text + buffer[..k][..j]) < |d|
    {
      ScanStops(s, d, text, buffer, j);
      CutShorter(buffer, j, k);
    }
  }

  lemma CutShorter(buffer: bytes, j: nat, k: nat)
    requires j <= k <= |buffer|
    ensures buffer[..k][..j] == buffer[..j]
  {
  }

  /** The sections of a portion, and of the rest of the buffer. */
  lemma SectionsPortion(f: Format, p: Parse, buffer: bytes, k: nat)
    requires k <= |buffer|
    ensures Sections(f, p, buffer) == Sections(f, p, buffer[..k]) + Sections(f, Feed(f, p, buffer[..k]), buffer[k..])
  {
    SectionsAppend(f, p, buffer[..k], buffer[k..]);
    assert buffer[..k] + buffer[k..] == buffer;
  }

  /** A read call hands over the sections that it completes. */
  lemma {:induction false} HandsSections(f: Format, s: Reader, p: Parse, buffer: bytes)
    requires Settled(f, s, p) && Fits(f, p, buffer) && AtSectionStart(p)
    ensures HandedOver(f, s, buffer) == Sections(f, p, buffer)
    decreases |buffer|
  {
    if buffer != [] {
      FitsIsNotDone(f, p, buffer);
      var d := Delimiter(f, s);
      var (t, k) := Scan(s, d, buffer);
      PortionHands(f, s, p, d, buffer);
      PortionKeeps(f, s, p, d, buffer);
      RestFits(f, p, buffer, k);
      SectionsPortion(f, p, buffer, k);
      HandedFirst(f, s, buffer, t, k);
      if k == |buffer| {
        NothingHanded(f, Settle(f, t, d, buffer, k), buffer[k..]);
      } else {
        HandsSections(f, Settle(f, t, d, buffer, k), Feed(f, p, buffer[..k]), buffer[k..]);
      }
    } else {
      NothingHanded(f, s, buffer);
    }
  }

  lemma NothingHanded(f: Format, s: Reader, buffer: bytes)
    requires buffer == []
    ensures HandedOver(f, s, buffer) == []
  {
  }

  lemma HandedFirst(f: Format, s: Reader, buffer: bytes, t: Reader, k: nat)
    requires Scan(s, Delimiter(f, s), buffer) == (t, k) && 0 < k <= |buffer|
    ensures HandedOver(f, s, buffer) == (if s.needHeader && t.matched == |Delimiter(f, s)| then [buffer[..k]] else [])
      + HandedOver(f, Settle(f, t, Delimiter(f, s), buffer, k), buffer[k..])
  {
    assert HandedOver(f, s, buffer) == HandedMore(f, s, t, Delimiter(f, s), buffer, k);
  }

  // ---- all calls ----

  function HandedOverAll(f: Format, s: Reader, chunks: seq<bytes>): seq<bytes> {
    if chunks == [] then []
    else
      var n := |chunks| - 1;
      HandedOverAll(f, s, chunks[..n]) + HandedOver(f, ReadAll(f, s, chunks[..n]), chunks[n])
  }

  /** No chunk begins within a header section. */
  ghost predicate SectionsWhole(f: Format, p: Parse, chunks: seq<bytes>) {
    forall k :: 0 <= k < |chunks| ==> AtSectionStart(Feed(f, p, Concat(chunks[..k])))
  }

  lemma FrontWhole(f: Format, p: Parse, chunks: seq<bytes>, front: seq<bytes>, chunk: bytes)
    requires SectionsWhole(f, p, chunks) && chunks == front + [chunk]
    ensures SectionsWhole(f, p, front) && AtSectionStart(Feed(f, p, Concat(front)))
  {
    assert front == chunks[..|front|];
    forall k | 0 <= k < |front|
      ensures AtSectionStart(Feed(f, p, Concat(front[..k])))
    {
      assert front[..k] == chunks[..k];
    }
  }

  lemma {:induction false} CallsHandOver(f: Format, s: Reader, p: Parse, chunks: seq<bytes>)
    requires Settled(f, s, p) && AllFit(f, p, chunks) && SectionsWhole(f, p, chunks)
    ensures HandedOverAll(f, s, chunks) == Sections(f, p, Concat(chunks))
    decreases |chunks|
  {
    if chunks != [] {
      var n := |chunks| - 1;
      FrontAndLast(chunks);
      CallsHandOver(f, s, p, chunks[..n]) by {
        FrontFits(f, s, p, chunks, chunks[..n], chunks[n]);
        FrontWhole(f, p, chunks, chunks[..n], chunks[n]);
      }
      LastHandsOver(f, s, p, chunks, chunks[..n], chunks[n]);
      SectionsChunks(f, p, chunks, chunks[..n], chunks[n]);
    }
  }

  lemma LastHandsOver(f: Format, s: Reader, p: Parse, chunks: seq<bytes>, front: seq<bytes>, chunk: bytes)
    requires Settled(f, s, p) && AllFit(f, p, chunks) && SectionsWhole(f, p, chunks) && chunks == front + [chunk]
    ensures HandedOver(f, ReadAll(f, s, front), chunk) == Sections(f, Feed(f, p, Concat(front)), chunk)
  {
    FrontFits(f, s, p, chunks, front, chunk);
    FrontWhole(f, p, chunks, front, chunk);
    HandsSections(f, ReadAll(f, s, front), Feed(f, p, Concat(front)), chunk);
  }

  lemma SectionsChunks(f: Format, p: Parse, chunks: seq<bytes>, front: seq<bytes>, chunk: bytes)
    requires chunks == front + [chunk]
    ensures Sections(f, p, Concat(chunks))
      == Sections(f, p, Concat(front)) + Sections(f, Feed(f, p, Concat(front)), chunk)
  {
    ConcatAppend(front, [chunk]);
    ConcatOne(chunk);
    SectionsAppend(f, p, Concat(front), chunk);
  }

  // ---- the sections of a rendered message ----

  /** What the writer puts before the body of a part, after the delimiter. */
  function SectionOf(part: Part): bytes {
    Lines(part.headers) + CRLF
  }

  lemma SectionsTo(f: Format, p: Parse, text: bytes, k: nat)
    requires p.text == [] && Finds(DelimiterOf(f, p.phase), text, k) && k + |DelimiterOf(f, p.phase)| == |text|
    ensures Sections(f, p, text) == if p.phase.Header? then [text] else []
  {
    FoundLast(DelimiterOf(f, p.phase), p.text, text, k);
    SectionsScan(f, p, text);
    NothingBefore(text);
  }

  /** A delimiter found at the end of a text is found there first. */
  lemma FoundLast(d: bytes, none: bytes, text: bytes, k: nat)
    requires none == [] && d != [] && Finds(d, text, k) && k + |d| == |text|
    ensures Match(d, text) == |d| && forall j :: 0 < j < |text| ==> Match(d, none + text[..j]) < |d|
  {
    forall j | 0 < j < |text|
      ensures Match(d, none + text[..j]) < |d|
    {
      NothingBefore(text[..j]);
    }
    Whole(text);
  }

  lemma HeaderIsSection(c: Content, i: nat, bodies: seq<bytes>)
    requires GoodParts(c) && i < |c.parts|
    ensures var f := FormatOf(c); var p, text := Parse(Header(i), [], bodies), SectionOf(c.parts[i]);
      Sections(f, p, text) == [text] && Feed(f, p, text) == Parse(Body(i), [], bodies)
  {
    var f := FormatOf(c);
    var p, lines := Parse(Header(i), [], bodies), Lines(c.parts[i].headers);
    assert GoodPart(c.boundary, c.parts[i]);
    LinesEnd(c.parts[i].headers);
    HeaderEnds(lines, []);
    assert lines + CRLF + [] == lines + CRLF;
    HeaderEndIsPlain();
    PlainFinds(HEADER_END, lines + CRLF, |lines| - 2);
    SectionsTo(f, p, lines + CRLF, |lines| - 2);
    assert (lines + CRLF)[..|lines| + 2] == lines + CRLF;
    FeedTo(f, p, lines + CRLF, |lines| - 2, |lines| + 2);
  }

  /** The delimiter after a body is found at its end. */
  lemma BodyIsFound(c: Content, i: nat, d: bytes, text: bytes)
    requires GoodParts(c) && i < |c.parts| && d == DelimiterOf(FormatOf(c), Body(i))
    requires text == Render(c.parts[i].content) + d
    ensures FirstAt(d, text, |text| - |d|) && Finds(d, text, |text| - |d|)
  {
    var body := Render(c.parts[i].content);
    assert GoodPart(c.boundary, c.parts[i]);
    DelimiterShape(FormatOf(c), i);
    BodyEnds(CRLF + DASHES + c.boundary, d, body, []);
    assert body + (d + []) == text;
    BodyFinds(FormatOf(c), i, d, text, |body|);
  }

  lemma Whole(text: bytes)
    ensures text[..|text|] == text
  {
  }

  lemma Ends(front: bytes, back: bytes)
    ensures (front + back)[..|front + back| - |back|] == front
  {
  }

  lemma BodyHasNone(c: Content, i: nat, bodies: seq<bytes>, text: bytes)
    requires GoodParts(c) && i < |c.parts|
    requires text == Render(c.parts[i].content) + DelimiterOf(FormatOf(c), Body(i))
    ensures var f := FormatOf(c); var p := Parse(Body(i), [], bodies);
      Sections(f, p, text) == [] && Feed(f, p, text) == PartStart(f, i + 1, bodies + [Render(c.parts[i].content)])
  {
    var f := FormatOf(c);
    var d := DelimiterOf(f, Body(i));
    BodyIsFound(c, i, d, text);
    SectionsTo(f, Parse(Body(i), [], bodies), text, |text| - |d|);
    FeedBody(f, i, text, |text| - |d|, bodies);
    Whole(text);
    Ends(Render(c.parts[i].content), d);
  }

  function SectionsFrom(c: Content, i: nat): seq<bytes>
    requires c.Parts? && i <= |c.parts|
    decreases |c.parts| - i
  {
    if i == |c.parts| then [] else [SectionOf(c.parts[i])] + SectionsFrom(c, i + 1)
  }

  /** One part's header section, its body with the delimiter after it, and what follows. */
  lemma CutPart(c: Content, i: nat)
    requires GoodParts(c) && i < |c.parts|
    ensures AfterDelimiter(c, i) == SectionOf(c.parts[i])
      + (Render(c.parts[i].content) + DelimiterOf(FormatOf(c), Body(i)) + AfterDelimiter(c, i + 1))
  {
    DelimiterFirst(c, i + 1);
    Assoc(Render(c.parts[i].content), DelimiterOf(FormatOf(c), Body(i)), AfterDelimiter(c, i + 1));
  }

  lemma {:induction false} PartsHave(c: Content, i: nat, bodies: seq<bytes>)
    requires GoodParts(c) && i <= |c.parts|
    ensures Sections(FormatOf(c), PartStart(FormatOf(c), i, bodies), AfterDelimiter(c, i)) == SectionsFrom(c, i)
    decreases |c.parts| - i
  {
    if i < |c.parts| {
      var f, body := FormatOf(c), Render(c.parts[i].content);
      var text, rest := body + DelimiterOf(f, Body(i)), AfterDelimiter(c, i + 1);
      CutPart(c, i);
      HeaderIsSection(c, i, bodies);
      BodyHasNone(c, i, bodies, text);
      SectionsAppend(f, Parse(Header(i), [], bodies), SectionOf(c.parts[i]), text + rest);
      SectionsAppend(f, Parse(Body(i), [], bodies), text, rest);
      PartsHave(c, i + 1, bodies + [body]);
    }
  }

  lemma MessageHas(c: Content, p: Parse)
    requires GoodParts(c) && p == MultipartParse.START
    ensures Sections(FormatOf(c), p, Render(c)) == SectionsFrom(c, 0)
  {
    var f, d := FormatOf(c), Opening(c.boundary);
    RenderSeen(c);
    RenderOpens(c);
    Assoc(CRLF, d, AfterDelimiter(c, 0));
    assert Render(c)[..2 + |d|] == CRLF + d && Render(c)[..2] == CRLF;
    DashFreeCount(c.boundary, CRLF);
    FeedOpening(f, p, Render(c), 2, 2 + |d|);
    PreambleHasNone(f, p);
    SectionsAppend(f, p, CRLF + d, AfterDelimiter(c, 0));
    PartsHave(c, 0, []);
  }

  lemma PreambleHasNone(f: Format, p: Parse)
    requires p == MultipartParse.START
    ensures Sections(f, p, CRLF + Opening(f.boundary)) == []
  {
    var d := Opening(f.boundary);
    OpensAtTwo(f.boundary, []);
    assert CRLF + (d + []) == CRLF + d && (CRLF + d)[..2] == CRLF;
    DashFreeCount(f.boundary, CRLF);
    FoundIffClear(d, CRLF + d, 2);
    SectionsTo(f, p, CRLF + d, 2);
  }

  // ---- the headers come back ----

  predicate AllReadable(headers: seq<KeyValue>) {
    forall j :: 0 <= j < |headers| ==> Readable(headers[j])
  }

  lemma {:induction false} SectionsAt(c: Content, i: nat, k: nat)
    requires c.Parts? && i <= k < |c.parts|
    ensures |SectionsFrom(c, i)| == |c.parts| - i && SectionsFrom(c, i)[k - i] == SectionOf(c.parts[k])
    decreases |c.parts| - i
  {
    SectionsCount(c, i);
    if i < k {
      SectionsAt(c, i + 1, k);
    }
  }

  lemma {:induction false} SectionsCount(c: Content, i: nat)
    requires c.Parts? && i <= |c.parts|
    ensures |SectionsFrom(c, i)| == |c.parts| - i
    decreases |c.parts| - i
  {
    if i < |c.parts| {
      SectionsCount(c, i + 1);
    }
  }

  lemma SectionReadsBack(part: Part)
    requires AllReadable(part.headers)
    ensures HeadersFrom(SectionOf(part), 0, 0) == HeadersIn(part.headers)
  {
    assert part.headers[..0] == [] && part.headers[0..] == part.headers;
    ReadBack(part.headers, SectionOf(part), 0, 0);
  }

  /**
   * However the sender's buffers and the receiver's chunks fall, if no chunk begins within a header
   * section, every part of the receiver is announced with the headers of the sender's part.
   */
  lemma HeadersComeBack(c: Content, rooms: seq<nat>, texts: seq<bytes>, chunks: seq<bytes>)
    requires GoodParts(c) && forall i :: 0 <= i < |c.parts| ==> AllReadable(c.parts[i].headers)
    requires Calls(Render(c), rooms, texts) && (forall i :: 0 <= i < |rooms| ==> 0 < rooms[i])
    requires |Render(c)| <= |texts|
    requires Chunking(FormatOf(c), Concat(texts), chunks)
    requires SectionsWhole(FormatOf(c), MultipartParse.START, chunks)
    ensures var handed := HandedOverAll(FormatOf(c), Initial(FormatOf(c)), chunks);
      |handed| == |c.parts|
      && forall i :: 0 <= i < |c.parts| ==> HeadersFrom(handed[i], 0, 0) == HeadersIn(c.parts[i].headers)
  {
    CallsGiveTheWhole(Render(c), rooms, texts);
    HandedAre(c, MultipartParse.START, chunks);
    SectionsReadBack(c, SectionsFrom(c, 0));
  }

  lemma SectionsReadBack(c: Content, sections: seq<bytes>)
    requires c.Parts? && sections == SectionsFrom(c, 0)
    requires forall i :: 0 <= i < |c.parts| ==> AllReadable(c.parts[i].headers)
    ensures |sections| == |c.parts|
    ensures forall i :: 0 <= i < |c.parts| ==> HeadersFrom(sections[i], 0, 0) == HeadersIn(c.parts[i].headers)
  {
    SectionsCount(c, 0);
    forall i | 0 <= i < |c.parts|
      ensures HeadersFrom(sections[i], 0, 0) == HeadersIn(c.parts[i].headers)
    {
      SectionsAt(c, 0, i);
      SectionReadsBack(c.parts[i]);
    }
  }

  /** What is handed over of a rendered message: the header sections of its parts, in order. */
  lemma HandedAre(c: Content, p: Parse, chunks: seq<bytes>)
    requires GoodParts(c) && p == MultipartParse.START
    requires Chunking(FormatOf(c), Render(c), chunks) && SectionsWhole(FormatOf(c), p, chunks)
    ensures HandedOverAll(FormatOf(c), Initial(FormatOf(c)), chunks) == SectionsFrom(c, 0)
  {
    RenderSplits(c);
    InitialSettled(FormatOf(c), p);
    AllChunksFit(FormatOf(c), p, Render(c), chunks);
    CallsHandOver(FormatOf(c), Initial(FormatOf(c)), p, chunks);
    MessageHas(c, p);
  }
}
