/** The empty pieces a part is given: its end, and what comes of chunks that only begin a delimiter. */
module ReaderPieces {
  import opened Bytes
  import opened Delimiters
  import opened MultipartParse
  import opened ReaderStates

  function Empties(pieces: seq<bytes>): nat {
    if pieces == [] then 0
    else Empties(pieces[..|pieces| - 1]) + if pieces[|pieces| - 1] == [] then 1 else 0
  }

  lemma EmptiesMore(pieces: seq<bytes>, piece: bytes)
    ensures Empties(pieces + [piece]) == Empties(pieces) + if piece == [] then 1 else 0
  {
    assert (pieces + [piece])[..|pieces|] == pieces;
  }

  /** How many empty pieces part i has had. */
  function Had(s: Reader, i: nat): nat {
    if i < |s.delivered| then Empties(s.delivered[i]) else 0
  }

  lemma GiveHad(s: Reader, piece: bytes, i: nat)
    ensures Had(Give(s, piece), i) == Had(s, i) + if i == s.part && i < |s.delivered| && piece == [] then 1 else 0
  {
    if i < |s.delivered| {
      EmptiesMore(s.delivered[i], piece);
    }
  }

  /** Scanning passes on what was carried, which is not empty. */
  lemma {:induction false} ScanHad(s: Reader, d: bytes, buffer: bytes, i: nat)
    ensures Had(Scan(s, d, buffer).0, i) == Had(s, i)
    decreases |buffer|
  {
    if buffer != [] && s.matched < |d| {
      GiveHad(s, s.carried, i);
      ScanHad(Scan1(s, d, buffer[0]), d, buffer[1..], i);
    }
  }

  /** In a body: an empty piece at the end of the part, or where all of the buffer is a begun delimiter. */
  lemma SettleHad(f: Format, t: Reader, d: bytes, buffer: bytes, k: nat, i: nat)
    requires !t.needHeader && 0 <= t.part < |t.delivered| && 0 < k <= |buffer| && t.matched <= |d|
    requires t.matched < |d| ==> k == |buffer| && t.matched <= k
    ensures Had(Settle(f, t, d, buffer, k), i)
      == Had(t, i) + if i == t.part && (t.matched == |d| || t.matched == k) then 1 else 0
  {
    if t.matched == |d| {
      var u := if k > |d| then Give(t, buffer[..k - |d|]) else t;
      GiveHad(t, buffer[..if k > |d| then k - |d| else 0], i);
      GiveHad(u, [], i);
    } else {
      assert buffer[..k] == buffer;
      GiveHad(t, buffer[..k - t.matched], i);
    }
  }

  // ---- which portions of a chunk make one ----

  /** The rest of a chunk, seen in a body with m bytes of its delimiter matched, does no more than begin one. */
  predicate BeginsOnly(d: bytes, m: nat, rest: bytes) {
    && 0 < |rest| < |d| && rest == d[..|rest|]
    && !(m == |d| - 2 && 2 <= |rest|)
  }

  lemma {:induction false} BeginsCount(d: bytes, text: bytes, rest: bytes, j: nat)
    requires d != [] && 1 <= j <= |rest| < |d| && rest == d[..|rest|] && Match(d, text + rest[..1]) == 1
    ensures Match(d, text + rest[..j]) == j
  {
    if j > 1 {
      BeginsCount(d, text, rest, j - 1);
      MatchAppend(d, text + rest[..j - 1], rest[j - 1]);
      assert rest[..j] == rest[..j - 1] + [rest[j - 1]];
      Assoc(text, rest[..j - 1], [rest[j - 1]]);
    }
  }

  /** The first byte of a begun delimiter starts the count anew, unless the chunk is swallowed. */
  lemma BeginsAnew(f: Format, p: Parse, d: bytes, rest: bytes)
    requires p.phase.Body? && d == DelimiterOf(f, p.phase) && Free(f.boundary, CR)
    requires Match(d, p.text) < |d| && BeginsOnly(d, Match(d, p.text), rest) && !Swallowed(f, p, rest)
    ensures Match(d, p.text + rest[..1]) == 1
  {
    DelimiterShape(f, p.phase.i);
    MatchAppend(d, p.text, rest[0]);
    OneSwallowed(f, p, d, rest);
    assert [rest[0]] == rest[..1];
  }

  /** A byte that goes on with a begun delimiter without ending it is a chunk swallowed. */
  lemma OneSwallowed(f: Format, p: Parse, d: bytes, rest: bytes)
    requires p.phase.Body? && d == DelimiterOf(f, p.phase) && rest != []
    ensures var m := Match(d, p.text);
      |rest| == 1 && 0 < m && m + 1 < |d| && rest[0] == d[m] ==> Swallowed(f, p, rest)
  {
    OneByte(d, Match(d, p.text), rest);
  }

  lemma OneByte(d: bytes, m: nat, rest: bytes)
    ensures |rest| == 1 && m + 1 < |d| && rest[0] == d[m] ==> rest == d[m..m + |rest|]
  {
  }

  /** Two bytes from the end of the delimiter, CR LF complete it. */
  lemma EndsInTwo(f: Format, p: Parse, d: bytes, rest: bytes)
    requires p.phase.Body? && d == DelimiterOf(f, p.phase) && Free(f.boundary, CR)
    requires Match(d, p.text) == |d| - 2 && 2 <= |rest| <= |d| && rest == d[..|rest|]
    ensures Match(d, p.text + rest[..2]) == |d|
  {
    DelimiterShape(f, p.phase.i);
    MatchAppend(d, p.text, rest[0]);
    MatchAppend(d, p.text + [rest[0]], rest[1]);
    Assoc(p.text, [rest[0]], [rest[1]]);
    assert rest[..2] == [rest[0]] + [rest[1]];
  }

  lemma {:induction false} StaysComplete(d: bytes, text: bytes, more: bytes, j: nat)
    requires d != [] && j <= |more| && Match(d, text + more[..j]) == |d|
    ensures Match(d, text + more) == |d|
    decreases |more|
  {
    if j == |more| {
      assert more[..j] == more;
    } else {
      var n := |more| - 1;
      assert more[..n][..j] == more[..j] && more == more[..n] + [more[n]];
      StaysComplete(d, text, more[..n], j);
      MatchAppend(d, text + more[..n], more[n]);
      Assoc(text, more[..n], [more[n]]);
    }
  }

  lemma BeginsOnlyIf(f: Format, p: Parse, d: bytes, rest: bytes)
    requires p.phase.Body? && d == DelimiterOf(f, p.phase) && Free(f.boundary, CR)
    requires rest != [] && Match(d, p.text + rest) == |rest| < |d| && Unfinished(d, p.text + rest)
    ensures BeginsOnly(d, Match(d, p.text), rest)
  {
    var text := p.text + rest;
    MatchIsBorder(d, text);
    assert text[|text| - |rest|..] == rest;
    if Match(d, p.text) == |d| - 2 && 2 <= |rest| {
      EndsInTwo(f, p, d, rest);
      StaysComplete(d, p.text, rest, 2);
    }
  }

  /**
   * In a body, a portion makes an empty delivery before the end exactly when it only begins the
   * delimiter: it is a start of it, and does not complete the one begun before.
   */
  lemma {:induction false} EmptyPieceIff(f: Format, s: Reader, p: Parse, d: bytes, buffer: bytes)
    requires Settled(f, s, p) && p.phase.Body? && d == Delimiter(f, s) && Free(f.boundary, CR)
    requires buffer != [] && !Swallowed(f, p, buffer)
    ensures var (t, k) := Scan(s, d, buffer);
      t.matched < |d| && t.matched == k <==> BeginsOnly(d, s.matched, buffer)
  {
    DelimiterAgrees(f, s, p);
    var (t, k) := Scan(s, d, buffer);
    CountsAfter(f, s, p, d, buffer);
    if BeginsOnly(d, s.matched, buffer) {
      BeginsThrough(f, p, d, buffer, k);
    } else if t.matched < |d| && t.matched == k {
      BeginsOnlyIf(f, p, d, buffer);
    }
  }

  /** Where a scan stops, and the count there. */
  lemma CountsAfter(f: Format, s: Reader, p: Parse, d: bytes, buffer: bytes)
    requires Settled(f, s, p) && !p.phase.Done? && d == DelimiterOf(f, p.phase)
    requires buffer != [] && !Swallowed(f, p, buffer)
    ensures s.matched == Match(d, p.text) < |d|
    ensures var (t, k) := Scan(s, d, buffer);
      && 0 < k <= |buffer| && t.matched == Match(d, p.text + buffer[..k])
      && (t.matched < |d| ==> k == |buffer| && t.matched == Match(d, p.text + buffer) && Unfinished(d, p.text + buffer))
  {
    DelimiterAgrees(f, s, p);
    var (t, k) := Scan(s, d, buffer);
    ScanLeaves(f, s, p, d, buffer);
    assert With(p, buffer[..k]).text == p.text + buffer[..k];
    assert k == |buffer| ==> buffer[..k] == buffer;
  }

  lemma BeginsThrough(f: Format, p: Parse, d: bytes, buffer: bytes, k: nat)
    requires p.phase.Body? && d == DelimiterOf(f, p.phase) && Free(f.boundary, CR)
    requires Match(d, p.text) < |d| && BeginsOnly(d, Match(d, p.text), buffer) && !Swallowed(f, p, buffer)
    requires 0 < k <= |buffer|
    ensures Match(d, p.text + buffer[..k]) == k
  {
    BeginsAnew(f, p, d, buffer);
    BeginsCount(d, p.text, buffer, k);
  }

  // ---- whole calls ----

  /** After the chunk, all of it that lies in the body the parse is in is a begun delimiter. */
  predicate OnlyBegun(f: Format, p: Parse, chunk: bytes) {
    var q := Feed(f, p, chunk);
    var n := Min(|q.text|, |chunk|);
    q.phase.Body? && 0 < n && Match(DelimiterOf(f, q.phase), q.text) == n
  }

  /** The empty pieces that a chunk makes for part i: its end, and one where it only begins a delimiter. */
  function Makes(f: Format, p: Parse, chunk: bytes, i: nat): nat {
    var q := Feed(f, p, chunk);
    (if |p.bodies| <= i < |q.bodies| then 1 else 0) + (if OnlyBegun(f, p, chunk) && q.phase == Body(i) then 1 else 0)
  }

  lemma {:induction false} TextBound(f: Format, p: Parse, input: bytes)
    ensures |Feed(f, p, input).text| <= |p.text| + |input| && p.bodies <= Feed(f, p, input).bodies
    decreases |input|
  {
    if input == [] {
      FeedNone(f, p);
    } else {
      var n := |input| - 1;
      assert input[..n] + [input[n]] == input;
      TextBound(f, p, input[..n]);
      FeedStep(f, p, input[..n], input[n]);
    }
  }

  /** A portion that completes a phase, and the rest of the chunk: what they make adds up. */
  lemma MakesAdd(f: Format, p: Parse, buffer: bytes, k: nat, i: nat)
    requires k < |buffer| && Feed(f, p, buffer[..k]).text == []
    ensures Makes(f, p, buffer, i) == Makes(f, p, buffer[..k], i) + Makes(f, Feed(f, p, buffer[..k]), buffer[k..], i)
  {
    var q := Feed(f, p, buffer[..k]);
    FeedPortion(f, p, buffer, k);
    TextBound(f, p, buffer[..k]);
    TextBound(f, q, buffer[k..]);
  }

  /** What the parse's next step makes, from the text before it and after it. */
  lemma MakesNothing(f: Format, p: Parse, chunk: bytes, i: nat)
    requires var q := Feed(f, p, chunk); q.bodies == p.bodies && (q.text == [] || !q.phase.Body?)
    ensures Makes(f, p, chunk, i) == 0
  {
  }

  lemma MakesInBody(f: Format, p: Parse, chunk: bytes, i: nat, q: Parse)
    requires p.phase.Body? && chunk != [] && q == With(p, chunk) && Feed(f, p, chunk) == Scanned(f, q)
    requires p.phase.i == |p.bodies|
    ensures var d := DelimiterOf(f, p.phase);
      Makes(f, p, chunk, i)
        == if i == p.phase.i && (Match(d, q.text) == |d| || Match(d, q.text) == |chunk|) then 1 else 0
  {
  }

  lemma {:induction false} PortionMakes(f: Format, s: Reader, p: Parse, d: bytes, buffer: bytes, i: nat)
    requires Settled(f, s, p) && !p.phase.Done? && d == Delimiter(f, s)
    requires buffer != [] && !Swallowed(f, p, buffer)
    ensures var (t, k) := Scan(s, d, buffer);
      Had(Settle(f, t, d, buffer, k), i) == Had(s, i) + Makes(f, p, buffer[..k], i)
  {
    DelimiterAgrees(f, s, p);
    var (t, k) := Scan(s, d, buffer);
    ScanLeaves(f, s, p, d, buffer);
    ScanFeeds(f, s, p, d, buffer);
    ScanHad(s, d, buffer, i);
    if p.phase.Body? {
      SettleHad(f, t, d, buffer, k, i);
      MakesInBody(f, p, buffer[..k], i, With(p, buffer[..k]));
    } else {
      MakesNothing(f, p, buffer[..k], i);
    }
  }

  /** The empty pieces of a read call, for every part. */
  lemma {:induction false} ReadMakes(f: Format, s: Reader, p: Parse, buffer: bytes, i: nat)
    requires Settled(f, s, p) && Fits(f, p, buffer)
    ensures Had(Read(f, s, buffer), i) == Had(s, i) + Makes(f, p, buffer, i)
    decreases |buffer|
  {
    if buffer == [] {
      FeedNone(f, p);
    } else {
      FitsIsNotDone(f, p, buffer);
      var d := Delimiter(f, s);
      var (t, k) := Scan(s, d, buffer);
      PortionKeeps(f, s, p, d, buffer);
      PortionMakes(f, s, p, d, buffer, i);
      RestFits(f, p, buffer, k);
      ReadPortion(f, s, buffer, k);
      ReadMakes(f, Settle(f, t, d, buffer, k), Feed(f, p, buffer[..k]), buffer[k..], i);
      if k < |buffer| {
        MakesAdd(f, p, buffer, k, i);
      } else {
        assert buffer[..k] == buffer && buffer[k..] == [];
        FeedNone(f, Feed(f, p, buffer));
      }
    }
  }

  /** A parse that has only taken in bytes has not completed its delimiter. */
  lemma NotComplete(f: Format, p: Parse, rest: bytes)
    requires rest != [] && !p.phase.Done? && Feed(f, p, rest) == With(p, rest)
    ensures var d := DelimiterOf(f, p.phase); Match(d, p.text + rest) < |d| && Unfinished(d, p.text + rest)
  {
    var n := |rest| - 1;
    assert rest[..n] + [rest[n]] == rest;
    FeedStep(f, p, rest[..n], rest[n]);
    var text := p.text + rest;
    assert text[..|text| - 1] + [rest[n]] == text;
    MatchAppend(DelimiterOf(f, p.phase), text[..|text| - 1], rest[n]);
  }

  /**
   * In bytes: of a chunk whose last `rest` lies in the body of a part, `rest` only begins the
   * delimiter if and only if it is a proper start of it, and not the CR LF that would end one begun.
   */
  lemma OnlyBegunIff(f: Format, p: Parse, lead: bytes, rest: bytes)
    requires Free(f.boundary, CR) && rest != []
    requires var q := Feed(f, p, lead);
      && q.phase.Body? && (lead == [] || q.text == []) && Feed(f, q, rest) == With(q, rest)
      && Match(DelimiterOf(f, q.phase), q.text) < |DelimiterOf(f, q.phase)| && !Swallowed(f, q, rest)
    ensures var q := Feed(f, p, lead); var d := DelimiterOf(f, q.phase);
      OnlyBegun(f, p, lead + rest) <==> BeginsOnly(d, Match(d, q.text), rest)
  {
    var q := Feed(f, p, lead);
    var d := DelimiterOf(f, q.phase);
    FeedAppend(f, p, lead, rest);
    MatchIffBegins(f, q, d, rest, Match(d, q.text), Match(d, q.text + rest));
  }

  /** The count at the end of bytes that stay in a body is their number, just when they begin the delimiter. */
  lemma MatchIffBegins(f: Format, q: Parse, d: bytes, rest: bytes, m: nat, n: nat)
    requires Free(f.boundary, CR) && rest != [] && q.phase.Body? && d == DelimiterOf(f, q.phase)
    requires m == Match(d, q.text) && n == Match(d, q.text + rest)
    requires Feed(f, q, rest) == With(q, rest) && m < |d| && !Swallowed(f, q, rest)
    ensures n == |rest| <==> BeginsOnly(d, m, rest)
  {
    if n == |rest| {
      MatchBegins(f, q, d, rest);
    } else if BeginsOnly(d, m, rest) {
      BeginsMatch(f, q, d, rest);
    }
  }

  lemma MatchBegins(f: Format, q: Parse, d: bytes, rest: bytes)
    requires Free(f.boundary, CR) && rest != [] && q.phase.Body? && d == DelimiterOf(f, q.phase)
    requires Feed(f, q, rest) == With(q, rest) && Match(d, q.text + rest) == |rest|
    ensures BeginsOnly(d, Match(d, q.text), rest)
  {
    NotComplete(f, q, rest);
    BeginsOnlyIf(f, q, d, rest);
  }

  lemma BeginsMatch(f: Format, q: Parse, d: bytes, rest: bytes)
    requires Free(f.boundary, CR) && q.phase.Body? && d == DelimiterOf(f, q.phase)
    requires Match(d, q.text) < |d| && !Swallowed(f, q, rest) && BeginsOnly(d, Match(d, q.text), rest)
    ensures Match(d, q.text + rest) == |rest|
  {
    BeginsAnew(f, q, d, rest);
    BeginsCount(d, q.text, rest, |rest|);
    assert rest[..|rest|] == rest;
  }

  /** How many of the chunks only begin a delimiter of part i. */
  function Begun(f: Format, p: Parse, chunks: seq<bytes>, i: nat): nat {
    if chunks == [] then 0
    else
      var n := |chunks| - 1;
      var q := Feed(f, p, Concat(chunks[..n]));
      Begun(f, p, chunks[..n], i) +
      (if OnlyBegun(f, q, chunks[n]) && Feed(f, q, chunks[n]).phase == Body(i) then 1 else 0)
  }

  lemma BegunLast(f: Format, p: Parse, chunks: seq<bytes>, k: nat, i: nat)
    requires 0 < k <= |chunks|
    ensures var q := Feed(f, p, Concat(chunks[..k - 1]));
      Begun(f, p, chunks[..k], i) == Begun(f, p, chunks[..k - 1], i) +
        if OnlyBegun(f, q, chunks[k - 1]) && Feed(f, q, chunks[k - 1]).phase == Body(i) then 1 else 0
  {
    assert chunks[..k][..k - 1] == chunks[..k - 1];
  }

  /** One more call. */
  lemma OneMakes(f: Format, s: Reader, r: Reader, q: Parse, chunk: bytes, i: nat, b: nat, n: nat)
    requires Settled(f, r, q) && Fits(f, q, chunk) && n <= |q.bodies|
    requires Had(r, i) == Had(s, i) + b + if n <= i < |q.bodies| then 1 else 0
    ensures var t := Feed(f, q, chunk);
      Had(Read(f, r, chunk), i) == Had(s, i) + b + (if OnlyBegun(f, q, chunk) && t.phase == Body(i) then 1 else 0)
        + if n <= i < |t.bodies| then 1 else 0
  {
    ReadMakes(f, r, q, chunk, i);
    TextBound(f, q, chunk);
  }

  /** All calls: an empty piece for each chunk that only begins the part's delimiter, and one for its end. */
  lemma {:induction false} CallsMake(f: Format, s: Reader, p: Parse, chunks: seq<bytes>, i: nat)
    requires Settled(f, s, p) && AllFit(f, p, chunks)
    ensures var q := Feed(f, p, Concat(chunks));
      Had(ReadAll(f, s, chunks), i)
        == Had(s, i) + Begun(f, p, chunks, i) + if |p.bodies| <= i < |q.bodies| then 1 else 0
    decreases |chunks|
  {
    if chunks == [] {
      FeedNone(f, p);
    } else {
      var n := |chunks| - 1;
      FrontAndLast(chunks);
      CallsMake(f, s, p, chunks[..n], i) by {
        FrontFits(f, s, p, chunks, chunks[..n], chunks[n]);
      }
      LastMakes(f, s, p, chunks, chunks[..n], chunks[n], i);
    }
  }

  lemma LastMakes(f: Format, s: Reader, p: Parse, chunks: seq<bytes>, front: seq<bytes>, chunk: bytes, i: nat)
    requires Settled(f, s, p) && AllFit(f, p, chunks) && chunks == front + [chunk]
    ensures var q := Feed(f, p, Concat(front)); var t := Feed(f, p, Concat(chunks));
      var before := Had(s, i) + Begun(f, p, front, i);
      (Had(ReadAll(f, s, front), i) == before + (if |p.bodies| <= i < |q.bodies| then 1 else 0)) ==>
        (Had(Read(f, ReadAll(f, s, front), chunk), i)
           == before + (if OnlyBegun(f, q, chunk) && t.phase == Body(i) then 1 else 0)
              + (if |p.bodies| <= i < |t.bodies| then 1 else 0))
    ensures Feed(f, p, Concat(chunks)) == Feed(f, Feed(f, p, Concat(front)), chunk)
  {
    var q := Feed(f, p, Concat(front));
    FrontFits(f, s, p, chunks, front, chunk);
    TextBound(f, p, Concat(front));
    FeedChunks(f, p, front, chunk);
    var b, n := Begun(f, p, front, i), |p.bodies|;
    if Had(ReadAll(f, s, front), i) == Had(s, i) + b + if n <= i < |q.bodies| then 1 else 0 {
      OneMakes(f, s, ReadAll(f, s, front), q, chunk, i, b, n);
    }
  }

  lemma FrontFits(f: Format, s: Reader, p: Parse, chunks: seq<bytes>, front: seq<bytes>, chunk: bytes)
    requires Settled(f, s, p) && AllFit(f, p, chunks) && chunks == front + [chunk]
    ensures AllFit(f, p, front)
    ensures Settled(f, ReadAll(f, s, front), Feed(f, p, Concat(front))) && Fits(f, Feed(f, p, Concat(front)), chunk)
  {
    assert front == chunks[..|front|];
    CallsKeep(f, s, p, chunks, |front|);
    forall j | 0 <= j < |front|
      ensures Fits(f, Feed(f, p, Concat(front[..j])), front[j])
    {
      assert front[..j] == chunks[..j] && front[j] == chunks[j];
    }
  }

  /**
   * Every part's end is signalled once: of its empty pieces one is the end, and each other is due to
   * a chunk that, in that part's body, did no more than begin the delimiter.
   */
  lemma EndsOnce(f: Format, message: bytes, chunks: seq<bytes>, i: nat)
    requires Free(f.boundary, CR) && Split(f, message).Some? && OpeningSeen(f, message)
    requires Chunking(f, message, chunks) && i < f.parts
    ensures var r := ReadAll(f, Initial(f), chunks);
      && |r.delivered| == f.parts == |Split(f, message).value| && Complete(r.delivered[i], Split(f, message).value[i])
      && Empties(r.delivered[i]) == 1 + Begun(f, START, chunks, i)
  {
    var p := START;
    InitialSettled(f, p);
    AllChunksFit(f, p, message, chunks);
    CallsMake(f, Initial(f), p, chunks, i);
    FeedIsSplit(f, p, message);
    ReaderSplits(f, message, chunks);
  }
}
