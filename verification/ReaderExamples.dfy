/** Messages on which the reader does what one would not expect, for every boundary and every header. */
module ReaderExamples {
  import opened Bytes
  import opened Delimiters
  import opened MultipartText
  import opened MultipartParse
  import opened MultipartRoundTrip
  import opened ReaderStates
  import opened ReaderPieces

  /** The message up to the first byte after the first part's header, when that part's body is empty. */
  function UpToCr(c: Content): bytes
    requires c.Parts? && c.parts != []
  {
    CRLF + Opening(c.boundary) + (Lines(c.parts[0].headers) + CRLF) + [CR]
  }

  predicate EmptyFirst(c: Content) {
    GoodParts(c) && Render(c.parts[0].content) == []
  }

  lemma StartsSo(c: Content) returns (rest: bytes)
    requires EmptyFirst(c)
    ensures Render(c) == UpToCr(c) + rest && rest != []
  {
    var lead := Lines(c.parts[0].headers) + CRLF;
    RenderOpens(c);
    rest := FirstByte(FormatOf(c), 0, AfterDelimiter(c, 1));
    DelimiterFirst(c, 1);
    NothingBefore(RenderFrom(c, 1));
    Nested(CRLF, Opening(c.boundary), lead, [CR], rest);
  }

  lemma Nested(a: bytes, b: bytes, c: bytes, d: bytes, e: bytes)
    ensures a + (b + (c + (d + e))) == a + b + c + d + e
  {
  }

  lemma FirstByte(f: Format, i: nat, after: bytes) returns (rest: bytes)
    requires Free(f.boundary, CR)
    ensures DelimiterOf(f, Body(i)) + after == [CR] + rest && rest != []
  {
    DelimiterShape(f, i);
    rest := DelimiterOf(f, Body(i))[1..] + after;
  }

  lemma FeedHeader(c: Content)
    requires EmptyFirst(c)
    ensures Feed(FormatOf(c), Parse(Header(0), [], []), Lines(c.parts[0].headers) + CRLF) == Parse(Body(0), [], [])
  {
    var f, lines := FormatOf(c), Lines(c.parts[0].headers);
    assert GoodPart(c.boundary, c.parts[0]);
    LinesEnd(c.parts[0].headers);
    HeaderEnds(lines, []);
    assert lines + CRLF + [] == lines + CRLF;
    HeaderEndIsPlain();
    PlainFinds(HEADER_END, lines + CRLF, |lines| - 2);
    assert (lines + CRLF)[..|lines| + 2] == lines + CRLF;
    FeedTo(f, Parse(Header(0), [], []), lines + CRLF, |lines| - 2, |lines| + 2);
  }

  lemma FeedCr(f: Format)
    requires Free(f.boundary, CR)
    ensures Feed(f, Parse(Body(0), [], []), [CR]) == Parse(Body(0), [CR], [])
  {
    var p := Parse(Body(0), [], []);
    FeedStep(f, p, [], CR);
    FeedNone(f, p);
    assert [] + [CR] == [CR];
    MatchAppend(DelimiterOf(f, Body(0)), [], CR);
    DelimiterShape(f, 0);
  }

  lemma FeedUpToCr(c: Content, p: Parse)
    requires EmptyFirst(c) && p == MultipartParse.START
    ensures Feed(FormatOf(c), p, UpToCr(c)) == Parse(Body(0), [CR], [])
  {
    var f, d := FormatOf(c), Opening(c.boundary);
    var lead := Lines(c.parts[0].headers) + CRLF;
    RenderSeen(c);
    RenderOpens(c);
    assert Render(c)[..2 + |d|] == CRLF + d && Render(c)[..2] == CRLF;
    DashFreeCount(c.boundary, CRLF);
    FeedOpening(f, p, Render(c), 2, 2 + |d|);
    FeedHeader(c);
    FeedCr(f);
    FeedAppend(f, p, CRLF + d, lead);
    FeedAppend(f, p, CRLF + d + lead, [CR]);
  }

  /**
   * Within the chunkings the reader takes: cut after the first byte of the delimiter that ends an
   * empty body, the message makes an empty delivery that is not the part's end.
   */
  lemma EmptyPieceBeforeTheEnd(c: Content) returns (chunks: seq<bytes>)
    requires EmptyFirst(c)
    ensures var f := FormatOf(c);
      && Chunking(f, Render(c), chunks) && |chunks| == 2
      && |ReadAll(f, Initial(f), chunks).delivered| == f.parts
      && 2 <= Empties(ReadAll(f, Initial(f), chunks).delivered[0])
  {
    var f, x := FormatOf(c), UpToCr(c);
    var rest := StartsSo(c);
    chunks := [x, rest];
    TwoChunks(x, rest);
    assert GoodPart(c.boundary, c.parts[0]);
    LinesEnd(c.parts[0].headers);
    RenderSplits(c);
    EndsOnce(f, Render(c), chunks, 0);
    BegunFirst(c, MultipartParse.START, rest);
  }

  lemma TwoChunks(x: bytes, y: bytes)
    ensures Concat([x, y]) == x + y && Concat([x]) == x
  {
    ConcatOne(x);
    ConcatOne(y);
    assert [x, y] == [x] + [y];
    ConcatAppend([x], [y]);
  }

  lemma BegunFirst(c: Content, p: Parse, rest: bytes)
    requires EmptyFirst(c) && p == MultipartParse.START
    ensures 1 <= Begun(FormatOf(c), p, [UpToCr(c), rest], 0)
  {
    var f, x := FormatOf(c), UpToCr(c);
    var chunks := [x, rest];
    assert chunks[..2] == chunks && chunks[..1] == [x] && chunks[..0] == [];
    BegunLast(f, p, chunks, 2, 0);
    BegunLast(f, p, chunks, 1, 0);
    FeedNone(f, p);
    FeedUpToCr(c, p);
    MatchAppend(DelimiterOf(f, Body(0)), [], CR);
    DelimiterShape(f, 0);
    assert [] + [CR] == [CR];
  }

  /**
   * Outside them: cut once more, one byte on, the chunk is a lone LF that goes on with the delimiter
   * without ending it, and the reader computes a length below zero.
   */
  lemma SwallowedHappens(c: Content)
    requires EmptyFirst(c)
    ensures var f := FormatOf(c); var p := Feed(f, MultipartParse.START, UpToCr(c));
      var s := Read(f, Initial(f), UpToCr(c)); var (t, k) := Scan(s, Delimiter(f, s), [LF]);
      Swallowed(f, p, [LF]) && Settled(f, s, p) && !t.needHeader && k < t.matched < |Delimiter(f, s)|
  {
    var f, x := FormatOf(c), UpToCr(c);
    var rest := StartsSo(c);
    FeedUpToCr(c, MultipartParse.START);
    var p := Feed(f, MultipartParse.START, x);
    var d := DelimiterOf(f, Body(0));
    DelimiterShape(f, 0);
    MatchAppend(d, [], CR);
    assert [] + [CR] == [CR] && d[1..2] == [LF];
    assert Swallowed(f, p, [LF]);
    FirstCallSettled(c, MultipartParse.START, rest);
    NegativeLengthIffSwallowed(f, Read(f, Initial(f), x), p, Delimiter(f, Read(f, Initial(f), x)), [LF]);
  }

  lemma FirstCallSettled(c: Content, p: Parse, rest: bytes)
    requires EmptyFirst(c) && p == MultipartParse.START && Render(c) == UpToCr(c) + rest
    ensures Settled(FormatOf(c), Read(FormatOf(c), Initial(FormatOf(c)), UpToCr(c)), Feed(FormatOf(c), p, UpToCr(c)))
  {
    var f, x := FormatOf(c), UpToCr(c);
    InitialSettled(f, p);
    RenderSplits(c);
    TwoChunks(x, rest);
    assert GoodPart(c.boundary, c.parts[0]);
    LinesEnd(c.parts[0].headers);
    AllChunksFit(f, p, Render(c), [x, rest]);
    assert [x, rest][..0] == [];
    FeedNone(f, p);
    ReadKeeps(f, Initial(f), p, x);
  }
}
