/**
 * A multipart message cut into part bodies, twice: at once, by first occurrences of the delimiters
 * as section 5.1.1 of RFC 2046 has it, and byte by byte, with the count of the matcher.
 */
module MultipartParse {
  import opened Bytes
  import opened Delimiters

  datatype Format = Format(boundary: bytes, parts: nat)

  datatype Phase = Preamble | Header(i: nat) | Body(i: nat) | Done

  /** Where in the message the reader is, the text since then, and the bodies already complete. */
  datatype Parse = Parse(phase: Phase, text: bytes, bodies: seq<bytes>)

  const START: Parse := Parse(Preamble, [], [])

  function DelimiterOf(f: Format, phase: Phase): (d: bytes)
    ensures 0 < |d| <= |f.boundary| + 8
  {
    match phase
    case Preamble => Opening(f.boundary)
    case Header(_) => HEADER_END
    case Body(i) => if i + 1 == f.parts then Closing(f.boundary) else Middle(f.boundary)
    case Done => Middle(f.boundary)
  }

  // ---- at once ----

  /** The first occurrence of `d` from `start` on is at k. */
  predicate FirstFrom(d: bytes, text: bytes, start: nat, k: nat) {
    start <= k && OccursAt(d, text, k) && forall j :: start <= j < k ==> !OccursAt(d, text, j)
  }

  lemma FirstIsOne(d: bytes, text: bytes, start: nat, j: nat, k: nat)
    requires FirstFrom(d, text, start, j) && FirstFrom(d, text, start, k)
    ensures j == k
  {
    assert OccursAt(d, text, j) && OccursAt(d, text, k);
  }

  /** There is a first occurrence whenever there is any. */
  lemma {:induction false} FirstIfAny(d: bytes, text: bytes, start: nat, i: nat)
    requires start <= i && OccursAt(d, text, i)
    ensures exists k: nat :: FirstFrom(d, text, start, k)
  {
    if j: nat :| start <= j < i && OccursAt(d, text, j) {
      FirstIfAny(d, text, start, j);
    } else {
      assert FirstFrom(d, text, start, i);
    }
  }

  /** Part i's header begins at `start` and its first blank line is at h, its first delimiter at k. */
  predicate PartAt(f: Format, i: nat, text: bytes, start: nat, h: nat, k: nat) {
    FirstFrom(HEADER_END, text, start, h) && FirstFrom(DelimiterOf(f, Body(i)), text, h + 4, k)
  }

  /**
   * The bodies before part i, and those from part i on, whose header begins at `start`; nothing may
   * follow the closing delimiter. Like `Feed` below it is told in three functions, so that a proof
   * sees how one part is cut only where it asks for it.
   */
  ghost function SplitParts(f: Format, i: nat, text: bytes, start: nat, bodies: seq<bytes>): Option<seq<bytes>>
    decreases f.parts - i, 2
  {
    if i < f.parts then SplitMore(f, i, text, start, bodies)
    else if start == |text| then Some(bodies)
    else None
  }

  ghost function SplitMore(f: Format, i: nat, text: bytes, start: nat, bodies: seq<bytes>): Option<seq<bytes>>
    requires i < f.parts
    decreases f.parts - i, 1
  {
    SplitPart(f, i, text, start, bodies)
  }

  ghost function SplitPart(f: Format, i: nat, text: bytes, start: nat, bodies: seq<bytes>): Option<seq<bytes>>
    requires i < f.parts
    decreases f.parts - i, 0
  {
    if exists h: nat, k: nat :: PartAt(f, i, text, start, h, k) then
      var h: nat, k: nat :| PartAt(f, i, text, start, h, k);
      SplitParts(f, i + 1, text, k + |DelimiterOf(f, Body(i))|, bodies + [text[h + 4..k]])
    else None
  }

  ghost function Split(f: Format, message: bytes): Option<seq<bytes>> {
    if exists k: nat :: FirstFrom(Opening(f.boundary), message, 0, k) then
      var k: nat :| FirstFrom(Opening(f.boundary), message, 0, k);
      SplitParts(f, 0, message, k + |Opening(f.boundary)|, [])
    else None
  }

  /**
   * The matcher sees the opening delimiter at its first occurrence: where it begins, the count is 0
   * or expects no dash.
   */
  ghost predicate OpeningSeen(f: Format, message: bytes) {
    var d := Opening(f.boundary);
    forall k: nat :: FirstFrom(d, message, 0, k) ==> Clear(d, Match(d, message[..k]))
  }

  lemma SplitPartsFrom(f: Format, i: nat, text: bytes, start: nat, bodies: seq<bytes>, h: nat, k: nat)
    requires i < f.parts && PartAt(f, i, text, start, h, k)
    ensures SplitParts(f, i, text, start, bodies)
      == SplitParts(f, i + 1, text, k + |DelimiterOf(f, Body(i))|, bodies + [text[h + 4..k]])
  {
    forall h': nat, k': nat | PartAt(f, i, text, start, h', k')
      ensures h' == h && k' == k
    {
      FirstIsOne(HEADER_END, text, start, h, h');
      FirstIsOne(DelimiterOf(f, Body(i)), text, h + 4, k, k');
    }
    assert SplitParts(f, i, text, start, bodies) == SplitMore(f, i, text, start, bodies)
        == SplitPart(f, i, text, start, bodies);
  }

  lemma SplitPartsHas(f: Format, i: nat, text: bytes, start: nat, bodies: seq<bytes>) returns (h: nat, k: nat)
    requires i < f.parts && SplitParts(f, i, text, start, bodies).Some?
    ensures PartAt(f, i, text, start, h, k)
  {
    assert SplitParts(f, i, text, start, bodies) == SplitMore(f, i, text, start, bodies)
        == SplitPart(f, i, text, start, bodies);
    h, k :| PartAt(f, i, text, start, h, k);
  }

  lemma SplitFrom(f: Format, message: bytes, k: nat)
    requires FirstFrom(Opening(f.boundary), message, 0, k)
    ensures Split(f, message) == SplitParts(f, 0, message, k + |Opening(f.boundary)|, [])
  {
    forall j: nat | FirstFrom(Opening(f.boundary), message, 0, j)
      ensures j == k
    {
      FirstIsOne(Opening(f.boundary), message, 0, j, k);
    }
  }

  // ---- byte by byte ----

  /** At a complete delimiter: on to the next phase, keeping the body that ends here. */
  function Advance(f: Format, p: Parse): Parse {
    match p.phase
    case Preamble => Parse(if 0 < f.parts then Header(0) else Done, [], p.bodies)
    case Header(i) => Parse(Body(i), [], p.bodies)
    case Body(i) =>
      var n := |p.text| - |DelimiterOf(f, p.phase)|;
      Parse(if i + 1 < f.parts then Header(i + 1) else Done, [], p.bodies + [if n >= 0 then p.text[..n] else []])
    case Done => p
  }

  function Eat(f: Format, p: Parse, c: byte): Parse {
    var d := DelimiterOf(f, p.phase);
    var q := p.(text := p.text + [c]);
    if Match(d, q.text) == |d| then Advance(f, q) else q
  }

  /**
   * Where eating the input leads. It is told in three functions so that a proof about `Feed` sees
   * what eating a byte does only where it asks for it, as FeedStep does.
   */
  function Feed(f: Format, p: Parse, input: bytes): Parse
    decreases |input|, 2
  {
    if input == [] then p else FeedMore(f, p, input)
  }

  function FeedMore(f: Format, p: Parse, input: bytes): Parse
    requires input != []
    decreases |input|, 1
  {
    FeedLast(f, p, input)
  }

  function FeedLast(f: Format, p: Parse, input: bytes): Parse
    requires input != []
    decreases |input|, 0
  {
    Eat(f, Feed(f, p, input[..|input| - 1]), input[|input| - 1])
  }

  lemma FeedNone(f: Format, p: Parse)
    ensures Feed(f, p, []) == p
  {
  }

  lemma FeedStep(f: Format, p: Parse, input: bytes, c: byte)
    ensures Feed(f, p, input + [c]) == Eat(f, Feed(f, p, input), c)
  {
    assert (input + [c])[..|input|] == input;
    assert Feed(f, p, input + [c]) == FeedMore(f, p, input + [c]) == FeedLast(f, p, input + [c]);
  }

  /** What has been eaten does not depend on how the input was cut up. */
  lemma {:induction false} FeedAppend(f: Format, p: Parse, xs: bytes, ys: bytes)
    ensures Feed(f, p, xs + ys) == Feed(f, Feed(f, p, xs), ys)
    decreases |ys|
  {
    if ys == [] {
      assert xs + ys == xs;
      FeedNone(f, Feed(f, p, xs));
    } else {
      var n := |ys| - 1;
      assert ys[..n] + [ys[n]] == ys;
      FeedAppend(f, p, xs, ys[..n]);
      FeedStep(f, Feed(f, p, xs), ys[..n], ys[n]);
      FeedStep(f, p, xs + ys[..n], ys[n]);
      Assoc(xs, ys[..n], [ys[n]]);
    }
  }

  lemma FeedChunks(f: Format, p: Parse, chunks: seq<bytes>, chunk: bytes)
    ensures Feed(f, p, Concat(chunks + [chunk])) == Feed(f, Feed(f, p, Concat(chunks)), chunk)
  {
    ConcatAppend(chunks, [chunk]);
    ConcatOne(chunk);
    FeedAppend(f, p, Concat(chunks), chunk);
  }

  // ---- they agree ----

  lemma FirstOfRest(d: bytes, text: bytes, start: nat, k: nat)
    requires FirstFrom(d, text, start, k) && start <= |text|
    ensures FirstAt(d, text[start..], k - start)
  {
    forall j | 0 <= j <= k - start
      ensures OccursAt(d, text[start..], j) <==> OccursAt(d, text, start + j)
    {
      assert j + |d| <= |text[start..]| ==> text[start..][j..j + |d|] == text[start + j..start + j + |d|];
    }
  }

  lemma PlainFinds(d: bytes, text: bytes, k: nat)
    requires d != [] && Plain(d) && FirstAt(d, text, k)
    ensures Finds(d, text, k)
  {
    forall j | 0 <= j <= k + |d|
      ensures Match(d, text[..j]) == |d| <==> j == k + |d|
    {
      MatchFindsFirst(d, text, k, j);
    }
  }

  /** Bytes without a complete count before the last of them stay in one phase. */
  lemma {:induction false} FeedScan(f: Format, p: Parse, input: bytes)
    requires input != []
    requires forall j :: 0 < j < |input| ==>
      Match(DelimiterOf(f, p.phase), p.text + input[..j]) < |DelimiterOf(f, p.phase)|
    ensures Feed(f, p, input) == Scanned(f, p.(text := p.text + input))
    decreases |input|
  {
    var n := |input| - 1;
    var before := input[..n];
    assert before + [input[n]] == input;
    FeedStep(f, p, before, input[n]);
    Assoc(p.text, before, [input[n]]);
    if n > 0 {
      assert forall j :: 0 < j < n ==> before[..j] == input[..j];
      FeedScan(f, p, before);
      assert Match(DelimiterOf(f, p.phase), p.text + input[..n]) < |DelimiterOf(f, p.phase)|;
    } else {
      FeedNone(f, p);
      assert p.text + before == p.text;
    }
  }

  /** The phase after a text, if no delimiter was complete before its last byte. */
  function Scanned(f: Format, q: Parse): Parse {
    if Match(DelimiterOf(f, q.phase), q.text) == |DelimiterOf(f, q.phase)| then Advance(f, q) else q
  }

  /** Feeding up to the end of a phase's delimiter. */
  lemma FeedTo(f: Format, p: Parse, text: bytes, k: nat, n: nat)
    requires p.text == [] && Finds(DelimiterOf(f, p.phase), text, k) && n == k + |DelimiterOf(f, p.phase)|
    ensures Feed(f, p, text[..n]) == Advance(f, p.(text := text[..n]))
  {
    var start := text[..n];
    forall j | 0 < j < n
      ensures Match(DelimiterOf(f, p.phase), p.text + start[..j]) < |DelimiterOf(f, p.phase)|
    {
      assert p.text + start[..j] == text[..j];
    }
    FeedScan(f, p, start);
    assert p.text + start == start == text[..n];
  }

  /** Feeding a part of a text, and then the rest. */
  lemma FeedOn(f: Format, p: Parse, text: bytes, start: nat, end: nat, q: Parse)
    requires start <= end <= |text| && Feed(f, p, text[start..][..end - start]) == q
    ensures Feed(f, p, text[start..]) == Feed(f, q, text[end..])
  {
    FeedAppend(f, p, text[start..][..end - start], text[end..]);
    assert text[start..][..end - start] + text[end..] == text[start..];
  }

  lemma DelimiterPlain(f: Format, phase: Phase)
    requires Free(f.boundary, CR) && !phase.Preamble?
    ensures Plain(DelimiterOf(f, phase))
  {
    MiddleIsPlain(f.boundary);
    ClosingIsPlain(f.boundary);
    HeaderEndIsPlain();
  }

  lemma FeedPastHeader(f: Format, i: nat, text: bytes, start: nat, h: nat, bodies: seq<bytes>)
    requires start <= |text| && FirstFrom(HEADER_END, text, start, h)
    ensures Feed(f, Parse(Header(i), [], bodies), text[start..]) == Feed(f, Parse(Body(i), [], bodies), text[h + 4..])
  {
    HeaderEndIsPlain();
    FirstOfRest(HEADER_END, text, start, h);
    PlainFinds(HEADER_END, text[start..], h - start);
    FeedTo(f, Parse(Header(i), [], bodies), text[start..], h - start, h + 4 - start);
    FeedOn(f, Parse(Header(i), [], bodies), text, start, h + 4, Parse(Body(i), [], bodies));
  }

  /** Where part i begins, or the end of the message. */
  function PartStart(f: Format, i: nat, bodies: seq<bytes>): Parse {
    Parse(if i < f.parts then Header(i) else Done, [], bodies)
  }

  lemma AdvanceBody(f: Format, i: nat, text: bytes, bodies: seq<bytes>, body: bytes)
    requires text == body + DelimiterOf(f, Body(i))
    ensures Advance(f, Parse(Body(i), text, bodies)) == PartStart(f, i + 1, bodies + [body])
  {
    assert text[..|body|] == body;
  }

  lemma BodyFinds(f: Format, i: nat, d: bytes, text: bytes, k: nat)
    requires Free(f.boundary, CR) && d == DelimiterOf(f, Body(i)) && FirstAt(d, text, k)
    ensures Finds(d, text, k) && k + |d| <= |text| && text[..k + |d|] == text[..k] + d
  {
    DelimiterPlain(f, Body(i));
    PlainFinds(d, text, k);
  }

  lemma FeedBody(f: Format, i: nat, text: bytes, k: nat, bodies: seq<bytes>)
    requires Free(f.boundary, CR) && FirstAt(DelimiterOf(f, Body(i)), text, k)
    ensures Feed(f, Parse(Body(i), [], bodies), text[..k + |DelimiterOf(f, Body(i))|])
      == PartStart(f, i + 1, bodies + [text[..k]])
  {
    var d := DelimiterOf(f, Body(i));
    BodyFinds(f, i, d, text, k);
    FeedTo(f, Parse(Body(i), [], bodies), text, k, k + |d|);
    AdvanceBody(f, i, text[..k + |d|], bodies, text[..k]);
  }

  lemma FeedPastBody(f: Format, i: nat, text: bytes, start: nat, k: nat, n: nat, bodies: seq<bytes>)
    requires Free(f.boundary, CR) && start <= |text| && FirstFrom(DelimiterOf(f, Body(i)), text, start, k)
    requires n == k + |DelimiterOf(f, Body(i))|
    ensures Feed(f, Parse(Body(i), [], bodies), text[start..])
      == Feed(f, PartStart(f, i + 1, bodies + [text[start..k]]), text[n..])
  {
    FirstOfRest(DelimiterOf(f, Body(i)), text, start, k);
    FeedBody(f, i, text[start..], k - start, bodies);
    assert text[start..][..k - start] == text[start..k];
    FeedOn(f, Parse(Body(i), [], bodies), text, start, n, PartStart(f, i + 1, bodies + [text[start..k]]));
  }

  lemma {:induction false} FeedSplitsParts(f: Format, i: nat, text: bytes, start: nat, bodies: seq<bytes>,
                                           all: seq<bytes>)
    requires Free(f.boundary, CR) && i <= f.parts && start <= |text|
    requires SplitParts(f, i, text, start, bodies) == Some(all)
    ensures Feed(f, PartStart(f, i, bodies), text[start..]) == Parse(Done, [], all)
    decreases f.parts - i
  {
    if i < f.parts {
      var h, k := SplitPartsHas(f, i, text, start, bodies);
      var n := k + |DelimiterOf(f, Body(i))|;
      SplitPartsFrom(f, i, text, start, bodies, h, k);
      FeedPastHeader(f, i, text, start, h, bodies);
      FeedPastBody(f, i, text, h + 4, k, n, bodies);
      FeedSplitsParts(f, i + 1, text, n, bodies + [text[h + 4..k]], all);
    } else {
      FeedNone(f, PartStart(f, i, bodies));
    }
  }

  lemma FeedOpening(f: Format, p: Parse, message: bytes, k: nat, n: nat)
    requires p == START && FirstFrom(Opening(f.boundary), message, 0, k)
    requires Clear(Opening(f.boundary), Match(Opening(f.boundary), message[..k]))
    requires n == k + |Opening(f.boundary)|
    ensures Feed(f, p, message[..n]) == PartStart(f, 0, [])
  {
    FoundIffClear(Opening(f.boundary), message, k);
    FeedTo(f, p, message, k, n);
  }

  lemma FeedFrom(f: Format, p: Parse, message: bytes, n: nat, all: seq<bytes>)
    requires Free(f.boundary, CR) && n <= |message| && SplitParts(f, 0, message, n, []) == Some(all)
    requires Feed(f, p, message[..n]) == PartStart(f, 0, [])
    ensures Feed(f, p, message) == Parse(Done, [], all)
  {
    assert message[..n] + message[n..] == message;
    FeedAppend(f, p, message[..n], message[n..]);
    FeedSplitsParts(f, 0, message, n, [], all);
  }

  lemma FeedPreamble(f: Format, p: Parse, message: bytes) returns (n: nat)
    requires Split(f, message).Some? && OpeningSeen(f, message) && p == START
    ensures n <= |message| && Feed(f, p, message[..n]) == PartStart(f, 0, [])
    ensures Split(f, message) == SplitParts(f, 0, message, n, [])
  {
    var k := SeenAt(f, message);
    n := k + |Opening(f.boundary)|;
    SplitFrom(f, message, k);
    FeedOpening(f, p, message, k, n);
  }

  lemma SeenAt(f: Format, message: bytes) returns (k: nat)
    requires Split(f, message).Some? && OpeningSeen(f, message)
    ensures FirstFrom(Opening(f.boundary), message, 0, k)
    ensures Clear(Opening(f.boundary), Match(Opening(f.boundary), message[..k]))
  {
    k :| FirstFrom(Opening(f.boundary), message, 0, k);
  }

  /** The byte-by-byte reader cuts a message where its delimiters first occur. */
  lemma FeedIsSplit(f: Format, p: Parse, message: bytes)
    requires Free(f.boundary, CR) && Split(f, message).Some? && OpeningSeen(f, message)
    requires p == START
    ensures Feed(f, p, message) == Parse(Done, [], Split(f, message).value)
  {
    var n := FeedPreamble(f, p, message);
    FeedFrom(f, p, message, n, Split(f, message).value);
  }

  /** The delimiter after a body: one CR at its start, and one more last but one. */
  lemma DelimiterShape(f: Format, i: nat)
    requires Free(f.boundary, CR)
    ensures var d := DelimiterOf(f, Body(i)); var start := CRLF + DASHES + f.boundary;
      && |start| <= |d| - 2 && start == d[..|start|] && d[0] == CR && d[|d| - 1] == LF
      && d[1] == LF && d[|d| - 2] == CR && forall k :: 0 < k < |d| - 2 ==> d[k] != CR
  {
    var d := DelimiterOf(f, Body(i));
    var b := f.boundary;
    assert forall k :: 0 <= k < |b| ==> d[4 + k] == b[k];
  }

  // ---- chunks the streaming reader can take ----

  /**
   * A whole chunk that goes on with a delimiter begun in an earlier chunk, without ending it; the
   * source then computes a length below zero.
   */
  predicate Swallowed(f: Format, p: Parse, chunk: bytes) {
    var d := DelimiterOf(f, p.phase);
    var m := Match(d, p.text);
    && !p.phase.Header? && 0 < m && chunk != []
    && m + |chunk| < |d| && chunk == d[m..m + |chunk|]
  }

  /** A chunk within the source's domain: not swallowed, and nothing after the closing delimiter. */
  ghost predicate Fits(f: Format, p: Parse, chunk: bytes) {
    && !Swallowed(f, p, chunk)
    && forall j :: 0 <= j < |chunk| ==> !Feed(f, p, chunk[..j]).phase.Done?
  }

  lemma {:induction false} MatchGoesOn(d: bytes, text: bytes, m: nat, n: nat)
    requires d != [] && Match(d, text) == m && m + n < |d|
    ensures Match(d, text + d[m..m + n]) == m + n
  {
    if n == 0 {
      assert text + d[m..m] == text;
    } else {
      MatchGoesOn(d, text, m, n - 1);
      var t := text + d[m..m + n];
      assert t[..|t| - 1] == text + d[m..m + n - 1];
    }
  }

  lemma SwallowedStays(f: Format, p: Parse, chunk: bytes)
    requires Swallowed(f, p, chunk)
    ensures Feed(f, p, chunk).phase == p.phase
  {
    var d := DelimiterOf(f, p.phase);
    var m := Match(d, p.text);
    forall j | 0 < j <= |chunk|
      ensures Match(d, p.text + chunk[..j]) < |d|
    {
      assert chunk[..j] == d[m..m + j];
      MatchGoesOn(d, p.text, m, j);
    }
    assert chunk[..|chunk|] == chunk;
    FeedScan(f, p, chunk);
  }

  lemma {:induction false} NothingAfterDone(f: Format, p: Parse, input: bytes)
    requires p.phase.Done? && input != []
    ensures Feed(f, p, input).phase.Done? && Feed(f, p, input).text != []
    decreases |input|
  {
    var n := |input| - 1;
    assert input[..n] + [input[n]] == input;
    FeedStep(f, p, input[..n], input[n]);
    if n > 0 {
      NothingAfterDone(f, p, input[..n]);
    } else {
      FeedNone(f, p);
    }
  }

  /** A proper prefix of a message that ends at its closing delimiter does not yet end. */
  lemma NotYetDone(f: Format, p: Parse, all: bytes, before: bytes, after: bytes)
    requires all == before + after && after != []
    requires Feed(f, p, all).text == []
    ensures !Feed(f, p, before).phase.Done?
  {
    FeedAppend(f, p, before, after);
    if Feed(f, p, before).phase.Done? {
      NothingAfterDone(f, Feed(f, p, before), after);
    }
  }

  /** The whole message, in three pieces, ends exactly at its closing delimiter. */
  ghost predicate EndsAt(f: Format, p: Parse, before: bytes, chunk: bytes, after: bytes) {
    var r := Feed(f, p, before + chunk + after);
    r.phase.Done? && r.text == []
  }

  lemma NotDoneWithin(f: Format, p: Parse, before: bytes, chunk: bytes, after: bytes, j: nat)
    requires EndsAt(f, p, before, chunk, after) && j < |chunk|
    ensures !Feed(f, Feed(f, p, before), chunk[..j]).phase.Done?
  {
    FeedAppend(f, p, before, chunk[..j]);
    Regroup(before, chunk, after, j);
    NotYetDone(f, p, before + chunk + after, before + chunk[..j], chunk[j..] + after);
  }

  lemma NotSwallowed(f: Format, p: Parse, before: bytes, chunk: bytes, after: bytes)
    requires EndsAt(f, p, before, chunk, after)
    requires after != [] ==> |f.boundary| + 8 <= |chunk|
    ensures !Swallowed(f, Feed(f, p, before), chunk)
  {
    var q := Feed(f, p, before);
    if chunk != [] {
      assert chunk[..0] == [];
      FeedNone(f, q);
      NotDoneWithin(f, p, before, chunk, after, 0);
    }
    if Swallowed(f, q, chunk) {
      SwallowedStays(f, q, chunk);
      assert before + chunk + after == before + chunk;
      FeedAppend(f, p, before, chunk);
    }
  }

  lemma ChunkFits(f: Format, p: Parse, before: bytes, chunk: bytes, after: bytes)
    requires EndsAt(f, p, before, chunk, after)
    requires after != [] ==> |f.boundary| + 8 <= |chunk|
    ensures Fits(f, Feed(f, p, before), chunk)
  {
    NotSwallowed(f, p, before, chunk, after);
    forall j | 0 <= j < |chunk|
      ensures !Feed(f, Feed(f, p, before), chunk[..j]).phase.Done?
    {
      NotDoneWithin(f, p, before, chunk, after, j);
    }
  }

  lemma Around<T>(xs: seq<T>, k: nat)
    requires k < |xs|
    ensures xs == xs[..k] + [xs[k]] + xs[k + 1..]
  {
  }

  lemma ConcatAround(chunks: seq<bytes>, k: nat)
    requires k < |chunks|
    ensures Concat(chunks) == Concat(chunks[..k]) + chunks[k] + Concat(chunks[k + 1..])
  {
    Around(chunks, k);
    ConcatThree(chunks, chunks[..k], chunks[k], chunks[k + 1..]);
  }

  lemma ConcatThree(all: seq<bytes>, xs: seq<bytes>, y: bytes, zs: seq<bytes>)
    requires all == xs + [y] + zs
    ensures Concat(all) == Concat(xs) + y + Concat(zs)
  {
    ConcatAppend(xs + [y], zs);
    ConcatAppend(xs, [y]);
    ConcatOne(y);
  }

  /** The chunk k of a message, between what is before it and what is after it. */
  lemma ChunkWithin(f: Format, p: Parse, message: bytes, chunks: seq<bytes>, k: nat)
    requires Free(f.boundary, CR) && Split(f, message).Some? && OpeningSeen(f, message)
    requires p == START && Concat(chunks) == message && k < |chunks|
    ensures EndsAt(f, p, Concat(chunks[..k]), chunks[k], Concat(chunks[k + 1..]))
  {
    FeedIsSplit(f, p, message);
    ConcatAround(chunks, k);
  }

  /** A message cut anywhere, with no chunk but the last shorter than a delimiter can be, fits. */
  lemma ChunkingFits(f: Format, p: Parse, message: bytes, chunks: seq<bytes>, k: nat)
    requires Free(f.boundary, CR) && Split(f, message).Some? && OpeningSeen(f, message)
    requires p == START && Concat(chunks) == message && k < |chunks|
    requires forall i :: 0 <= i < |chunks| - 1 ==> |f.boundary| + 8 <= |chunks[i]|
    ensures Fits(f, Feed(f, p, Concat(chunks[..k])), chunks[k])
  {
    ChunkWithin(f, p, message, chunks, k);
    ChunkFits(f, p, Concat(chunks[..k]), chunks[k], Concat(chunks[k + 1..]));
  }

  /** However it is cut, a chunk of a message that can be split fits if and only if it is not swallowed. */
  lemma FitsIffNotSwallowed(f: Format, p: Parse, message: bytes, chunks: seq<bytes>, k: nat)
    requires Free(f.boundary, CR) && Split(f, message).Some? && OpeningSeen(f, message)
    requires p == START && Concat(chunks) == message && k < |chunks|
    ensures var q := Feed(f, p, Concat(chunks[..k]));
      Fits(f, q, chunks[k]) <==> !Swallowed(f, q, chunks[k])
  {
    ChunkWithin(f, p, message, chunks, k);
    forall j | 0 <= j < |chunks[k]|
      ensures !Feed(f, Feed(f, p, Concat(chunks[..k])), chunks[k][..j]).phase.Done?
    {
      NotDoneWithin(f, p, Concat(chunks[..k]), chunks[k], Concat(chunks[k + 1..]), j);
    }
  }
}
