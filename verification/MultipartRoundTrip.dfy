/** What the writers write, the reader takes apart again. */
module MultipartRoundTrip {
  import opened Bytes
  import opened Delimiters
  import opened MultipartText
  import opened MultipartParse
  import opened MultipartUpload
  import R = ReaderStates

  function FormatOf(c: Content): Format
    requires c.Parts?
  {
    Format(c.boundary, |c.parts|)
  }

  predicate Absent(d: bytes, text: bytes) {
    forall i :: 0 <= i <= |text| ==> !OccursAt(d, text, i)
  }

  /** At least one header line, and no blank line among them. */
  predicate GoodHeaders(headers: seq<KeyValue>) {
    Lines(headers) != [] && Absent(HEADER_END, Lines(headers))
  }

  /** The part can be told from what surrounds it. */
  predicate GoodPart(boundary: bytes, part: Part) {
    GoodHeaders(part.headers) && Absent(CRLF + DASHES + boundary, Render(part.content))
  }

  predicate GoodParts(c: Content) {
    c.Parts? && c.parts != [] && Free(c.boundary, CR)
    && forall i :: 0 <= i < |c.parts| ==> GoodPart(c.boundary, c.parts[i])
  }

  function Bodies(c: Content): seq<bytes>
    requires c.Parts?
  {
    seq(|c.parts|, i requires 0 <= i < |c.parts| => Render(c.parts[i].content))
  }

  lemma {:induction false} LinesEnd(headers: seq<KeyValue>)
    ensures var n := |Lines(headers)|;
      n > 0 ==> n >= 2 && Lines(headers)[n - 2] == CR && Lines(headers)[n - 1] == LF
  {
    if headers != [] {
      LinesEnd(headers[..|headers| - 1]);
    }
  }

  lemma StartOccurs(start: bytes, d: bytes, body: bytes, tail: bytes, j: nat)
    requires OccursAt(d, body + tail, j) && |start| <= |d| && start == d[..|start|] && j + |start| <= |body|
    ensures OccursAt(start, body, j)
  {
    var text := body + tail;
    assert text[j..j + |d|][..|start|] == text[j..j + |start|] == body[j..j + |start|];
  }

  /** The blank line after the header lines is the first. */
  lemma HeaderEnds(lines: bytes, rest: bytes)
    requires 2 <= |lines| && lines[|lines| - 2] == CR && lines[|lines| - 1] == LF && Absent(HEADER_END, lines)
    ensures FirstAt(HEADER_END, lines + CRLF + rest, |lines| - 2)
  {
    var text := lines + CRLF + rest;
    var k := |lines| - 2;
    assert text[k..k + 4] == HEADER_END;
    forall j | 0 <= j < k
      ensures !OccursAt(HEADER_END, text, j)
    {
      if j + 4 <= |lines| {
        assert text[j..j + 4] == lines[j..j + 4];
        assert !OccursAt(HEADER_END, lines, j);
      } else {
        OccurrenceAgrees(HEADER_END, text, j, 1);
      }
    }
  }

  /** A delimiter with its only other CR last but one cannot begin in a body that lacks its start. */
  lemma BodyEnds(start: bytes, d: bytes, body: bytes, rest: bytes)
    requires 2 <= |start| <= |d| - 2 && start == d[..|start|] && d[0] == CR
    requires forall i :: 0 < i < |d| - 2 ==> d[i] != CR
    requires d[|d| - 1] != CR && Absent(start, body)
    ensures FirstAt(d, body + (d + rest), |body|)
  {
    var text := body + (d + rest);
    var n := |body|;
    assert text[n..n + |d|] == d;
    forall j | 0 <= j < n
      ensures !OccursAt(d, text, j)
    {
      if n - j < |d| {
        OccurrenceAgrees(d, text, j, n - j);
      }
      if OccursAt(d, text, j) {
        StartOccurs(start, d, body, d + rest, j);
      }
    }
  }

  /** What follows the delimiter before part i. */
  function AfterDelimiter(c: Content, i: nat): bytes
    requires c.Parts? && i <= |c.parts|
  {
    if i == |c.parts| then []
    else Lines(c.parts[i].headers) + CRLF + (Render(c.parts[i].content) + RenderFrom(c, i + 1))
  }

  lemma DelimiterFirst(c: Content, i: nat)
    requires c.Parts? && 0 < i <= |c.parts|
    ensures RenderFrom(c, i) == DelimiterOf(FormatOf(c), Body(i - 1)) + AfterDelimiter(c, i)
  {
    if i < |c.parts| {
      var rest := Render(c.parts[i].content) + RenderFrom(c, i + 1);
      assert RenderFrom(c, i) == Lead(c.boundary, c.parts[i].headers) + rest;
      Assoc(Middle(c.boundary), Lines(c.parts[i].headers), CRLF);
      Assoc(Middle(c.boundary), Lines(c.parts[i].headers) + CRLF, rest);
    } else {
      assert Closing(c.boundary) + [] == Closing(c.boundary);
    }
  }

  /** Looking from the end of a prefix finds what is first after it. */
  lemma FirstAfter(d: bytes, prefix: bytes, rest: bytes, k: nat)
    requires FirstAt(d, rest, k)
    ensures FirstFrom(d, prefix + rest, |prefix|, |prefix| + k)
  {
    var text, n := prefix + rest, |prefix|;
    forall j | n <= j <= n + k
      ensures OccursAt(d, text, j) <==> OccursAt(d, rest, j - n)
    {
      assert j + |d| <= |text| ==> text[j..j + |d|] == rest[j - n..j - n + |d|];
    }
  }

  lemma PartHeader(c: Content, i: nat, prefix: bytes)
    requires GoodParts(c) && i < |c.parts|
    ensures var n := |Lines(c.parts[i].headers)|;
      n >= 2 && FirstFrom(HEADER_END, prefix + AfterDelimiter(c, i), |prefix|, |prefix| + n - 2)
  {
    var lines, rest := Lines(c.parts[i].headers), Render(c.parts[i].content) + RenderFrom(c, i + 1);
    assert GoodPart(c.boundary, c.parts[i]);
    LinesEnd(c.parts[i].headers);
    HeaderEnds(lines, rest);
    FirstAfter(HEADER_END, prefix, lines + CRLF + rest, |lines| - 2);
  }

  lemma PartBody(c: Content, i: nat, prefix: bytes)
    requires GoodParts(c) && i < |c.parts|
    ensures var body, d := Render(c.parts[i].content), DelimiterOf(FormatOf(c), Body(i));
      && RenderFrom(c, i + 1) == d + AfterDelimiter(c, i + 1)
      && FirstFrom(d, prefix + (body + (d + AfterDelimiter(c, i + 1))), |prefix|, |prefix| + |body|)
  {
    var body, d, after := Render(c.parts[i].content), DelimiterOf(FormatOf(c), Body(i)), AfterDelimiter(c, i + 1);
    assert GoodPart(c.boundary, c.parts[i]);
    DelimiterFirst(c, i + 1);
    DelimiterShape(FormatOf(c), i);
    BodyEnds(CRLF + DASHES + c.boundary, d, body, after);
    FirstAfter(d, prefix, body + (d + after), |body|);
  }

  lemma BodyBetween(before: bytes, body: bytes, after: bytes)
    ensures (before + (body + after))[|before|..|before| + |body|] == body
  {
  }

  /** What there is from a part's header on, told from where its body begins and where it ends. */
  lemma PartLaidOut(c: Content, i: nat, prefix: bytes)
    requires GoodParts(c) && i < |c.parts|
    ensures var lead, body := Lines(c.parts[i].headers) + CRLF, Render(c.parts[i].content);
      var d, after := DelimiterOf(FormatOf(c), Body(i)), AfterDelimiter(c, i + 1);
      && prefix + AfterDelimiter(c, i) == prefix + lead + (body + (d + after))
      && prefix + AfterDelimiter(c, i) == prefix + lead + body + d + after
  {
    var lead, body := Lines(c.parts[i].headers) + CRLF, Render(c.parts[i].content);
    var d, after := DelimiterOf(FormatOf(c), Body(i)), AfterDelimiter(c, i + 1);
    DelimiterFirst(c, i + 1);
    Assoc(prefix, lead, body + (d + after));
    Assoc(prefix + lead, body, d + after);
    Assoc(prefix + lead + body, d, after);
  }

  lemma PartIsCut(f: Format, i: nat, text: bytes, start: nat, before: bytes, body: bytes, after: bytes,
                  bodies: seq<bytes>)
    requires i < f.parts && 4 <= |before| && text == before + (body + after)
    requires PartAt(f, i, text, start, |before| - 4, |before| + |body|)
    ensures SplitParts(f, i, text, start, bodies)
      == SplitParts(f, i + 1, text, |before + body + DelimiterOf(f, Body(i))|, bodies + [body])
  {
    BodyBetween(before, body, after);
    SplitPartsFrom(f, i, text, start, bodies, |before| - 4, |before| + |body|);
  }

  /** Where part i lies in a text, and what is before, in and after its body. */
  lemma PartFound(c: Content, i: nat, prefix: bytes, text: bytes) returns (before: bytes, after: bytes)
    requires GoodParts(c) && i < |c.parts| && text == prefix + AfterDelimiter(c, i)
    ensures text == before + (Bodies(c)[i] + after) && 4 <= |before|
    ensures PartAt(FormatOf(c), i, text, |prefix|, |before| - 4, |before| + |Bodies(c)[i]|)
    ensures text == before + Bodies(c)[i] + DelimiterOf(FormatOf(c), Body(i)) + AfterDelimiter(c, i + 1)
  {
    before := prefix + (Lines(c.parts[i].headers) + CRLF);
    after := DelimiterOf(FormatOf(c), Body(i)) + AfterDelimiter(c, i + 1);
    PartHeader(c, i, prefix);
    PartBody(c, i, before);
    PartLaidOut(c, i, prefix);
  }

  lemma PartComesBack(c: Content, i: nat, prefix: bytes, text: bytes, bodies: seq<bytes>) returns (longer: bytes)
    requires GoodParts(c) && i < |c.parts| && text == prefix + AfterDelimiter(c, i)
    ensures text == longer + AfterDelimiter(c, i + 1)
    ensures SplitParts(FormatOf(c), i, text, |prefix|, bodies)
      == SplitParts(FormatOf(c), i + 1, text, |longer|, bodies + [Bodies(c)[i]])
  {
    var before, after := PartFound(c, i, prefix, text);
    longer := before + Bodies(c)[i] + DelimiterOf(FormatOf(c), Body(i));
    PartIsCut(FormatOf(c), i, text, |prefix|, before, Bodies(c)[i], after, bodies);
  }

  lemma OneMoreBody(all: seq<bytes>, i: nat)
    requires i < |all|
    ensures all[..i] + [all[i]] == all[..i + 1]
  {
  }

  lemma NoMoreParts(f: Format, text: bytes, bodies: seq<bytes>)
    ensures SplitParts(f, f.parts, text, |text|, bodies) == Some(bodies)
  {
  }

  lemma {:induction false} PartsComeBack(c: Content, i: nat, prefix: bytes, text: bytes, bodies: seq<bytes>)
    requires GoodParts(c) && i <= |c.parts| && text == prefix + AfterDelimiter(c, i) && bodies == Bodies(c)[..i]
    ensures SplitParts(FormatOf(c), i, text, |prefix|, bodies) == Some(Bodies(c))
    decreases |c.parts| - i
  {
    if i < |c.parts| {
      var longer := PartComesBack(c, i, prefix, text, bodies);
      OneMoreBody(Bodies(c), i);
      PartsComeBack(c, i + 1, longer, text, bodies + [Bodies(c)[i]]);
    } else {
      assert prefix + [] == prefix && bodies == Bodies(c);
      NoMoreParts(FormatOf(c), text, bodies);
    }
  }

  /** After a line end, the opening delimiter is at once. */
  lemma OpensAtTwo(boundary: bytes, rest: bytes)
    ensures FirstAt(Opening(boundary), CRLF + (Opening(boundary) + rest), 2)
  {
    var text := CRLF + (Opening(boundary) + rest);
    assert text[2..2 + |Opening(boundary)|] == Opening(boundary);
    forall j | 0 <= j < 2
      ensures !OccursAt(Opening(boundary), text, j)
    {
      OccurrenceAgrees(Opening(boundary), text, j, 0);
    }
  }

  lemma RenderOpens(c: Content)
    requires c.Parts? && c.parts != []
    ensures Render(c) == CRLF + (Opening(c.boundary) + AfterDelimiter(c, 0))
  {
    var lines, rest := Lines(c.parts[0].headers), Render(c.parts[0].content) + RenderFrom(c, 1);
    assert Render(c) == Lead(c.boundary, c.parts[0].headers) + rest;
    Assoc(Middle(c.boundary), lines, CRLF);
    Assoc(Middle(c.boundary), lines + CRLF, rest);
    assert Middle(c.boundary) == CRLF + Opening(c.boundary);
    Assoc(CRLF, Opening(c.boundary), lines + CRLF + rest);
  }

  lemma RenderSeen(c: Content)
    requires GoodParts(c)
    ensures FirstFrom(Opening(c.boundary), Render(c), 0, 2) && OpeningSeen(FormatOf(c), Render(c))
  {
    var d, after := Opening(c.boundary), AfterDelimiter(c, 0);
    RenderOpens(c);
    OpensAtTwo(c.boundary, after);
    assert Render(c)[..2] == CRLF;
    DashFreeCount(c.boundary, CRLF);
  }

  /** Cut by its first delimiters, a rendered multipart gives its parts' bodies. */
  lemma {:induction false} RenderSplits(c: Content)
    requires GoodParts(c)
    ensures Split(FormatOf(c), Render(c)) == Some(Bodies(c)) && OpeningSeen(FormatOf(c), Render(c))
  {
    var d, after := Opening(c.boundary), AfterDelimiter(c, 0);
    RenderSeen(c);
    SplitFrom(FormatOf(c), Render(c), 2);
    RenderOpens(c);
    Assoc(CRLF, d, after);
    assert Bodies(c)[..0] == [];
    PartsComeBack(c, 0, CRLF + d, Render(c), []);
  }

  /**
   * However the sender's buffers and the receiver's chunks fall: once everything is sent, every part
   * of the receiver has had the body that the sender's part renders, and its end.
   */
  lemma MultipartComesBack(c: Content, rooms: seq<nat>, texts: seq<bytes>, chunks: seq<bytes>)
    requires GoodParts(c)
    requires Calls(Render(c), rooms, texts) && (forall i :: 0 <= i < |rooms| ==> 0 < rooms[i])
    requires |Render(c)| <= |texts|
    requires R.Chunking(FormatOf(c), Concat(texts), chunks)
    ensures var f := FormatOf(c); var r := R.ReadAll(f, R.Initial(f), chunks);
      && r.part == |c.parts| == r.announced == |r.delivered|
      && forall i :: 0 <= i < |c.parts| ==> R.Complete(r.delivered[i], Render(c.parts[i].content))
  {
    CallsGiveTheWhole(Render(c), rooms, texts);
    RenderSplits(c);
    R.ReaderSplits(FormatOf(c), Render(c), chunks);
  }

  // ---- multiparts within multiparts ----

  /** Every multipart of the tree can be told from what surrounds its parts. */
  predicate GoodTree(c: Content)
    decreases c
  {
    c.Parts? ==> GoodParts(c) && forall i :: 0 <= i < |c.parts| ==> GoodTree(c.parts[i].content)
  }

  /** The reader of a multipart after these pieces of it. */
  ghost function ReaderOf(c: Content, pieces: seq<bytes>): R.Reader
    requires c.Parts?
  {
    R.ReadAll(FormatOf(c), R.Initial(FormatOf(c)), pieces)
  }

  ghost predicate NoneSwallowed(c: Content, pieces: seq<bytes>)
    requires c.Parts?
  {
    forall k :: 0 <= k < |pieces| ==> !Swallowed(FormatOf(c), Feed(FormatOf(c), START, Concat(pieces[..k])), pieces[k])
  }

  /** No reader of the tree is handed a piece that lies inside one of its own delimiters. */
  ghost predicate NowhereSwallowed(c: Content, pieces: seq<bytes>)
    decreases c
  {
    c.Parts? ==>
      && NoneSwallowed(c, pieces) && |ReaderOf(c, pieces).delivered| == |c.parts|
      && forall i :: 0 <= i < |c.parts| ==> NowhereSwallowed(c.parts[i].content, ReaderOf(c, pieces).delivered[i])
  }

  /** Every part of the tree has had what it renders, and its end, from the reader it is a part of. */
  ghost predicate TreeReceived(c: Content, pieces: seq<bytes>)
    decreases c
  {
    && Concat(pieces) == Render(c)
    && (c.Parts? ==>
          && ReaderOf(c, pieces).part == |c.parts| == |ReaderOf(c, pieces).delivered|
          && forall i :: 0 <= i < |c.parts| ==>
               && R.Complete(ReaderOf(c, pieces).delivered[i], Render(c.parts[i].content))
               && TreeReceived(c.parts[i].content, ReaderOf(c, pieces).delivered[i]))
  }

  lemma PartsReceived(c: Content, pieces: seq<bytes>)
    requires GoodParts(c) && Concat(pieces) == Render(c) && NoneSwallowed(c, pieces)
    ensures ReaderOf(c, pieces).part == |c.parts| == |ReaderOf(c, pieces).delivered|
    ensures forall i :: 0 <= i < |c.parts| ==>
      R.Complete(ReaderOf(c, pieces).delivered[i], Render(c.parts[i].content))
  {
    RenderSplits(c);
    R.NestedReaderSplits(FormatOf(c), Render(c), pieces);
  }

  /**
   * A whole tree comes back: with a reader for every multipart in it, each a part of the one around it,
   * every part at every depth gets what it renders.
   */
  lemma {:induction false} TreeComesBack(c: Content, pieces: seq<bytes>)
    requires GoodTree(c) && Concat(pieces) == Render(c) && NowhereSwallowed(c, pieces)
    ensures TreeReceived(c, pieces)
    decreases c
  {
    if c.Parts? {
      PartsReceived(c, pieces);
      forall i | 0 <= i < |c.parts|
        ensures TreeReceived(c.parts[i].content, ReaderOf(c, pieces).delivered[i])
      {
        TreeComesBack(c.parts[i].content, ReaderOf(c, pieces).delivered[i]);
      }
    }
  }
}
