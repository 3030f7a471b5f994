/** The streaming multipart reader, on values. */
module ReaderStates {
  import opened Bytes
  import opened Delimiters
  import opened MultipartParse

  /**
   * `carried` is the begun delimiter kept from earlier chunks, `delivered` the pieces passed to each
   * part's data callback, where an empty piece ends the part, and `announced` the header callbacks.
   */
  datatype Reader = Reader(part: int, matched: nat, needHeader: bool, carried: bytes,
                           delivered: seq<seq<bytes>>, announced: nat)

  function Initial(f: Format): Reader {
    Reader(-1, 0, false, [], seq(f.parts, _ => []), 0)
  }

  /** The delimiter to look for, chosen as the source does. */
  function Delimiter(f: Format, s: Reader): (d: bytes)
    ensures 0 < |d| <= |f.boundary| + 8
  {
    if s.needHeader then HEADER_END
    else if s.part == -1 then Opening(f.boundary)
    else if s.part == f.parts - 1 then Closing(f.boundary)
    else Middle(f.boundary)
  }

  /** One call of the current part's data callback; the preamble has none. */
  function Give(s: Reader, piece: bytes): Reader {
    if 0 <= s.part < |s.delivered| then s.(delivered := s.delivered[s.part := s.delivered[s.part] + [piece]]) else s
  }

  /** The matcher on one byte; at a mismatch it passes on what was carried over. */
  function Scan1(s: Reader, d: bytes, c: byte): (r: Reader)
    requires s.matched < |d|
    ensures r.matched == Next(d, s.matched, c)
  {
    var t := if c == d[s.matched] then s
             else (if s.carried != [] then Give(s, s.carried) else s).(matched := 0, carried := []);
    if c == d[t.matched] then t.(matched := t.matched + 1) else t
  }

  /** Scanning to a complete delimiter or the end of the buffer, and how many bytes that took. */
  function Scan(s: Reader, d: bytes, buffer: bytes): (r: (Reader, nat))
    ensures r.1 <= |buffer| && (buffer != [] && s.matched < |d| ==> 0 < r.1)
    decreases |buffer|
  {
    if buffer == [] || s.matched >= |d| then (s, 0)
    else
      var (t, n) := Scan(Scan1(s, d, buffer[0]), d, buffer[1..]);
      (t, n + 1)
  }

  /** What follows the scanning of n bytes of the buffer. */
  function Settle(f: Format, s: Reader, d: bytes, buffer: bytes, n: nat): Reader
    requires n <= |buffer|
  {
    if s.needHeader then
      if s.matched == |d| then s.(needHeader := false, matched := 0, announced := s.announced + 1) else s
    else if s.matched == |d| then
      var t := if s.part == -1 then s else Give(if n > |d| then Give(s, buffer[..n - |d|]) else s, []);
      t.(part := s.part + 1, needHeader := s.part + 1 < f.parts, matched := 0, carried := [])
    else if s.matched > 0 then
      if n < s.matched then s
      else Give(s, buffer[..n - s.matched]).(carried := s.carried + buffer[n - s.matched..n])
    else Give(s, buffer).(carried := [])
  }

  /** A whole read call. */
  function Read(f: Format, s: Reader, buffer: bytes): Reader
    decreases |buffer|
  {
    var d := Delimiter(f, s);
    var (t, n) := Scan(s, d, buffer);
    if n == 0 then s else Read(f, Settle(f, t, d, buffer, n), buffer[n..])
  }

  lemma ReadNothing(f: Format, s: Reader)
    ensures Read(f, s, []) == s
  {
  }

  // ---- the reader against the byte-by-byte parse ----

  /** The pieces make up the body, and the last of them signals its end. */
  ghost predicate Complete(pieces: seq<bytes>, body: bytes) {
    pieces != [] && pieces[|pieces| - 1] == [] && Concat(pieces) == body
  }

  /** The fields say the phase. */
  predicate Placed(f: Format, s: Reader, p: Parse) {
    && |s.delivered| == f.parts
    && match p.phase
       case Preamble => s.part == -1 && !s.needHeader && |p.bodies| == 0 == s.announced
       case Header(i) => s.part == i < f.parts && s.needHeader && |p.bodies| == i == s.announced
       case Body(i) => s.part == i < f.parts && !s.needHeader && |p.bodies| == i == s.announced - 1
       case Done => s.part == f.parts == |p.bodies| == s.announced && !s.needHeader
  }

  /** Every complete part has had its body and its end, and no later part has had anything. */
  ghost predicate Passed(s: Reader, p: Parse) {
    && (forall j :: 0 <= j < |p.bodies| && j < |s.delivered| ==> Complete(s.delivered[j], p.bodies[j]))
    && (forall j :: |p.bodies| <= j < |s.delivered| && p.phase != Body(j) ==> s.delivered[j] == [])
  }

  function Pieces(s: Reader): bytes {
    if 0 <= s.part < |s.delivered| then Concat(s.delivered[s.part]) else []
  }

  /** The count is right, and what is carried over starts the match that the buffer goes on with. */
  ghost predicate Counted(s: Reader, text: bytes, d: bytes, seen: bytes)
    requires d != []
  {
    && s.matched == Match(d, text) && Unfinished(d, text)
    && (s.needHeader ==> s.carried == [])
    && (s.carried != [] ==> |s.carried| + |seen| == s.matched && s.carried == d[..|s.carried|])
    && (s.carried == [] ==> s.needHeader || s.matched <= |seen|)
  }

  /** The part's text is what it has been given, what is carried over and what is in the buffer. */
  ghost predicate Given(s: Reader, p: Parse, seen: bytes) {
    p.phase.Body? ==> Pieces(s) + s.carried + seen == p.text
  }

  /** Part-way through a buffer, after the bytes `seen` of it. */
  ghost predicate Midway(s: Reader, p: Parse, d: bytes, seen: bytes)
    requires d != []
  {
    Counted(s, p.text, d, seen) && Given(s, p, seen)
  }

  /** Between read calls: the part has been given all but the begun delimiter, which is carried. */
  ghost predicate Settled(f: Format, s: Reader, p: Parse) {
    && Placed(f, s, p) && Passed(s, p)
    && Midway(s, p, Delimiter(f, s), []) && s.matched < |Delimiter(f, s)|
  }

  lemma DelimiterAgrees(f: Format, s: Reader, p: Parse)
    requires Placed(f, s, p)
    ensures Delimiter(f, s) == DelimiterOf(f, p.phase)
  {
  }

  lemma GivePieces(s: Reader, piece: bytes)
    ensures 0 <= s.part < |s.delivered| ==> Pieces(Give(s, piece)) == Pieces(s) + piece
  {
    if 0 <= s.part < |s.delivered| {
      ConcatAppend(s.delivered[s.part], [piece]);
      ConcatOne(piece);
    }
  }

  lemma Scan1Counted(s: Reader, text: bytes, d: bytes, seen: bytes, c: byte)
    requires d != [] && Counted(s, text, d, seen) && s.matched < |d|
    ensures Counted(Scan1(s, d, c), text + [c], d, seen + [c])
  {
    assert (text + [c])[..|text|] == text;
  }

  lemma Scan1Given(s: Reader, p: Parse, d: bytes, seen: bytes, c: byte)
    requires Given(s, p, seen) && s.matched < |d| && (p.phase.Body? ==> 0 <= s.part < |s.delivered|)
    ensures Given(Scan1(s, d, c), p.(text := p.text + [c]), seen + [c])
  {
    Assoc(Pieces(s) + s.carried, seen, [c]);
    if c != d[s.matched] && s.carried != [] {
      GivePieces(s, s.carried);
      assert Pieces(s) + s.carried + [] == Pieces(s) + s.carried;
    }
  }

  /** The same reader but for its count, what it carries and the current part's pieces. */
  ghost predicate SameElsewhere(s: Reader, t: Reader) {
    && t.part == s.part && t.needHeader == s.needHeader && t.announced == s.announced
    && |t.delivered| == |s.delivered| && (s.carried == [] ==> t.carried == [] && t.delivered == s.delivered)
    && (t.carried != [] ==> t.carried == s.carried)
    && forall j :: 0 <= j < |s.delivered| && j != s.part ==> t.delivered[j] == s.delivered[j]
  }

  lemma {:induction false} ScanElsewhere(s: Reader, d: bytes, buffer: bytes)
    ensures SameElsewhere(s, Scan(s, d, buffer).0)
    decreases |buffer|
  {
    if buffer != [] && s.matched < |d| {
      ScanElsewhere(Scan1(s, d, buffer[0]), d, buffer[1..]);
    }
  }

  lemma SameElsewherePlaced(f: Format, s: Reader, t: Reader, p: Parse)
    requires Placed(f, s, p) && Passed(s, p) && SameElsewhere(s, t) && (s.needHeader ==> s.carried == [])
    requires !p.phase.Done?
    ensures Placed(f, t, p) && Passed(t, p)
  {
  }

  /** The parse is in the same phase and has the text with these bytes. */
  function With(p: Parse, more: bytes): Parse {
    p.(text := p.text + more)
  }

  lemma FeedOne(f: Format, p: Parse, buffer: bytes, n: nat)
    requires 0 < n <= |buffer|
    ensures Feed(f, p, buffer[..n]) == Feed(f, Scanned(f, With(p, [buffer[0]])), buffer[1..n])
  {
    assert buffer[..n] == [buffer[0]] + buffer[1..n];
    FeedAppend(f, p, [buffer[0]], buffer[1..n]);
    FeedNone(f, p);
    assert [] + [buffer[0]] == [buffer[0]];
    FeedStep(f, p, [], buffer[0]);
  }

  lemma WithMore(p: Parse, buffer: bytes, k: nat)
    requires 0 < k <= |buffer|
    ensures With(With(p, [buffer[0]]), buffer[1..][..k - 1]) == With(p, buffer[..k])
  {
    assert [buffer[0]] + buffer[1..][..k - 1] == buffer[..k];
    Assoc(p.text, [buffer[0]], buffer[1..][..k - 1]);
  }

  lemma SeenMore(seen: bytes, buffer: bytes, k: nat)
    requires 0 < k <= |buffer|
    ensures seen + [buffer[0]] + buffer[1..][..k - 1] == seen + buffer[..k]
  {
  }

  /** Scanning keeps the relation to the text, a byte at a time. */
  lemma {:induction false} ScanMidway(s: Reader, p: Parse, d: bytes, buffer: bytes, seen: bytes)
    requires d != [] && buffer != [] && s.matched < |d| && Midway(s, p, d, seen)
    requires p.phase.Body? ==> 0 <= s.part < |s.delivered|
    ensures var (t, k) := Scan(s, d, buffer);
      && 0 < k <= |buffer| && (t.matched == |d| || k == |buffer|)
      && Midway(t, With(p, buffer[..k]), d, seen + buffer[..k])
    decreases |buffer|
  {
    var s1, p1 := Scan1(s, d, buffer[0]), With(p, [buffer[0]]);
    Scan1Counted(s, p.text, d, seen, buffer[0]);
    Scan1Given(s, p, d, seen, buffer[0]);
    var (t, k) := Scan(s, d, buffer);
    if buffer[1..] == [] || s1.matched == |d| {
      assert buffer[..1] == [buffer[0]];
    } else {
      ScanMidway(s1, p1, d, buffer[1..], seen + [buffer[0]]);
      WithMore(p, buffer, k);
      SeenMore(seen, buffer, k);
    }
  }

  lemma CutBoth(buffer: bytes, k: nat)
    requires 0 < k <= |buffer|
    ensures buffer[1..][..k - 1] == buffer[1..k]
  {
  }

  lemma CountOne(s: Reader, p: Parse, d: bytes, c: byte)
    requires d != [] && s.matched == Match(d, p.text) < |d|
    ensures Scan1(s, d, c).matched == Match(d, With(p, [c]).text)
  {
    assert (p.text + [c])[..|p.text|] == p.text;
    MatchAppend(d, p.text, c);
  }

  /** The scan of more than one byte, when the first does not complete the delimiter. */
  lemma ScanRest(s: Reader, d: bytes, buffer: bytes)
    requires buffer != [] && s.matched < |d|
    ensures var s1 := Scan1(s, d, buffer[0]);
      Scan(s, d, buffer).1 == if buffer[1..] == [] || s1.matched >= |d| then 1 else 1 + Scan(s1, d, buffer[1..]).1
  {
  }

  lemma FeedsOne(f: Format, p: Parse, buffer: bytes)
    requires buffer != []
    ensures Feed(f, p, buffer[..1]) == Scanned(f, With(p, buffer[..1]))
  {
    FeedOne(f, p, buffer, 1);
    assert buffer[1..1] == [] && buffer[..1] == [buffer[0]];
    FeedNone(f, Scanned(f, With(p, [buffer[0]])));
  }

  lemma FeedsOn(f: Format, p: Parse, q: Parse, buffer: bytes, more: bytes, k: nat)
    requires 1 < k <= |buffer| && more == buffer[1..][..k - 1]
    requires q == With(p, [buffer[0]]) == Scanned(f, q) && Feed(f, q, more) == Scanned(f, With(q, more))
    ensures Feed(f, p, buffer[..k]) == Scanned(f, With(p, buffer[..k]))
  {
    FeedOne(f, p, buffer, k);
    CutBoth(buffer, k);
    WithMore(p, buffer, k);
  }

  lemma NotFull(f: Format, q: Parse)
    requires Match(DelimiterOf(f, q.phase), q.text) < |DelimiterOf(f, q.phase)|
    ensures Scanned(f, q) == q
  {
  }

  /** Scanning takes the parse to the end of what was scanned. */
  lemma {:induction false} ScanFeeds(f: Format, s: Reader, p: Parse, d: bytes, buffer: bytes)
    requires d == DelimiterOf(f, p.phase) && buffer != [] && s.matched == Match(d, p.text) < |d|
    ensures var k := Scan(s, d, buffer).1;
      Feed(f, p, buffer[..k]) == Scanned(f, With(p, buffer[..k]))
    decreases |buffer|
  {
    var s1, q := Scan1(s, d, buffer[0]), With(p, [buffer[0]]);
    var rest := buffer[1..];
    CountOne(s, p, d, buffer[0]);
    ScanRest(s, d, buffer);
    if rest == [] || s1.matched >= |d| {
      FeedsOne(f, p, buffer);
    } else {
      NotFull(f, q);
      ScanFeeds(f, s1, q, d, rest);
      var k := Scan(s1, d, rest).1;
      FeedsOn(f, p, q, buffer, rest[..k], k + 1);
    }
  }

  // ---- the three ends of a scan ----

  lemma GiveFrame(f: Format, s: Reader, p: Parse, piece: bytes)
    requires Placed(f, s, p) && Passed(s, p) && p.phase.Body?
    ensures Placed(f, Give(s, piece), p) && Passed(Give(s, piece), p)
    ensures Pieces(Give(s, piece)) == Pieces(s) + piece
  {
    GivePieces(s, piece);
  }

  lemma EndOfHeader(f: Format, s: Reader, q: Parse, buffer: bytes, n: nat)
    requires q.phase.Header? && n <= |buffer|
    requires Placed(f, s, q) && Passed(s, q) && s.matched == 4 && s.carried == []
    ensures Settled(f, Settle(f, s, HEADER_END, buffer, n), Advance(f, q))
  {
  }

  lemma EndOfPreamble(f: Format, s: Reader, q: Parse, d: bytes, buffer: bytes, n: nat)
    requires q.phase.Preamble? && n <= |buffer| && d == Opening(f.boundary)
    requires Placed(f, s, q) && Passed(s, q) && s.matched == |d|
    ensures Settled(f, Settle(f, s, d, buffer, n), Advance(f, q))
  {
  }

  lemma CutTail(xs: bytes, ys: bytes, k: nat)
    requires k <= |ys|
    ensures (xs + ys)[..|xs + ys| - k] == xs + ys[..|ys| - k]
  {
  }

  /** The last pieces of a part: the rest of its body, if any of it is in the buffer, and the end. */
  lemma LastPieces(f: Format, s: Reader, q: Parse, d: bytes, buffer: bytes, n: nat)
    requires q.phase.Body? && n <= |buffer| && Placed(f, s, q)
    requires d != [] && Midway(s, q, d, buffer[..n]) && s.matched == |d|
    ensures |d| <= |q.text|
    ensures Pieces(if n > |d| then Give(s, buffer[..n - |d|]) else s) == q.text[..|q.text| - |d|]
  {
    var rest := s.carried + buffer[..n];
    Assoc(Pieces(s), s.carried, buffer[..n]);
    CutTail(Pieces(s), rest, |d|);
    GivePieces(s, buffer[..if n > |d| then n - |d| else 0]);
    CutCarried(s.carried, buffer, n, |d|);
    assert Pieces(s) + [] == Pieces(s);
  }

  /** The last k bytes of what was carried and the buffer, when what was carried is among them. */
  lemma CutCarried(carried: bytes, buffer: bytes, n: nat, k: nat)
    requires n <= |buffer| && k <= |carried| + n && (carried != [] ==> |carried| + n == k)
    ensures (carried + buffer[..n])[..|carried| + n - k] == if n > k then buffer[..n - k] else []
  {
  }

  lemma EndOfBody(f: Format, s: Reader, q: Parse, d: bytes, buffer: bytes, n: nat)
    requires q.phase.Body? && n <= |buffer| && d == DelimiterOf(f, q.phase)
    requires Placed(f, s, q) && Passed(s, q) && Midway(s, q, d, buffer[..n]) && s.matched == |d|
    ensures Settled(f, Settle(f, s, d, buffer, n), Advance(f, q))
  {
    LastPieces(f, s, q, d, buffer, n);
    var s1 := if n > |d| then Give(s, buffer[..n - |d|]) else s;
    var s2 := Give(s1, []);
    GivePieces(s1, []);
    var body := q.text[..|q.text| - |d|];
    assert body + [] == body;
    assert Complete(s2.delivered[s.part], body);
  }

  lemma EndBytes(text: bytes, buffer: bytes, m: nat)
    requires m <= |buffer| <= |text| && text[|text| - |buffer|..] == buffer
    ensures text[|text| - m..] == buffer[|buffer| - m..|buffer|]
  {
  }

  /** Outside a header: what the buffer leaves behind when it ends in a begun delimiter or none. */
  lemma Leftover(f: Format, s: Reader, d: bytes, buffer: bytes)
    requires !s.needHeader && s.matched < |d| && s.carried == [] && s.matched <= |buffer|
    ensures var m := s.matched; var n := |buffer|;
      Settle(f, s, d, buffer, n) == Give(s, buffer[..n - m]).(carried := buffer[n - m..n])
  {
    assert buffer[..|buffer|] == buffer;
    assert [] + buffer[|buffer| - s.matched..|buffer|] == buffer[|buffer| - s.matched..|buffer|];
  }

  lemma LeftoverGiven(f: Format, s: Reader, q: Parse, d: bytes, buffer: bytes)
    requires q.phase.Body? && Placed(f, s, q) && Given(s, q, buffer) && s.carried == [] && s.matched <= |buffer|
    ensures var m := s.matched; var n := |buffer|;
      Given(Give(s, buffer[..n - m]).(carried := buffer[n - m..n]), q, [])
  {
    var x, y := buffer[..|buffer| - s.matched], buffer[|buffer| - s.matched..|buffer|];
    assert x + y == buffer;
    GivePieces(s, x);
    Assoc(Pieces(s), x, y);
    assert Pieces(s) + [] == Pieces(s);
    assert Pieces(s) + x + y + [] == Pieces(s) + x + y;
  }

  lemma CarriedCounts(s: Reader, text: bytes, d: bytes, tail: bytes)
    requires d != [] && s.matched == Match(d, text) && Unfinished(d, text) && !s.needHeader
    requires |tail| == s.matched && tail <= d
    ensures Counted(s.(carried := tail), text, d, [])
  {
  }

  lemma SettledWith(f: Format, g: Reader, q: Parse, d: bytes, tail: bytes)
    requires d == DelimiterOf(f, q.phase) && Placed(f, g, q) && Passed(g, q) && g.matched < |d|
    requires Counted(g.(carried := tail), q.text, d, []) && Given(g.(carried := tail), q, [])
    ensures Settled(f, g.(carried := tail), q)
  {
    DelimiterAgrees(f, g, q);
  }

  lemma EndOfBufferInBody(f: Format, s: Reader, q: Parse, d: bytes, buffer: bytes)
    requires d == DelimiterOf(f, q.phase) && q.phase.Body? && s.matched < |d| && s.carried == []
    requires Placed(f, s, q) && Passed(s, q) && Counted(s, q.text, d, buffer) && Given(s, q, buffer)
    requires Border(d, q.text, s.matched) && |buffer| <= |q.text| && q.text[|q.text| - |buffer|..] == buffer
    ensures Settled(f, Settle(f, s, d, buffer, |buffer|), q)
  {
    var piece, tail := buffer[..|buffer| - s.matched], buffer[|buffer| - s.matched..|buffer|];
    var g := Give(s, piece);
    EndBytes(q.text, buffer, s.matched);
    CarriedCounts(g, q.text, d, tail);
    Leftover(f, s, d, buffer);
    GiveFrame(f, s, q, piece);
    LeftoverGiven(f, s, q, d, buffer);
    SettledWith(f, g, q, d, tail);
  }

  lemma EndOfBuffer(f: Format, s: Reader, q: Parse, d: bytes, buffer: bytes)
    requires d == DelimiterOf(f, q.phase) && !q.phase.Done? && s.matched < |d| && s.carried == []
    requires Placed(f, s, q) && Passed(s, q) && Midway(s, q, d, buffer)
    requires |buffer| <= |q.text| && q.text[|q.text| - |buffer|..] == buffer
    ensures Settled(f, Settle(f, s, d, buffer, |buffer|), q)
  {
    if !s.needHeader {
      MatchIsBorder(d, q.text);
      if q.phase.Body? {
        EndOfBufferInBody(f, s, q, d, buffer);
      } else {
        EndOfBufferBefore(f, s, q, d, buffer);
      }
    }
  }

  lemma EndOfBufferBefore(f: Format, s: Reader, q: Parse, d: bytes, buffer: bytes)
    requires d == DelimiterOf(f, q.phase) && q.phase.Preamble? && s.matched < |d| && s.carried == []
    requires Placed(f, s, q) && Passed(s, q) && Counted(s, q.text, d, buffer)
    requires Border(d, q.text, s.matched) && |buffer| <= |q.text| && q.text[|q.text| - |buffer|..] == buffer
    ensures Settled(f, Settle(f, s, d, buffer, |buffer|), q)
  {
    EndBytes(q.text, buffer, s.matched);
    Leftover(f, s, d, buffer);
  }

  // ---- whole calls ----

  lemma TextEnds(p: Parse, buffer: bytes, k: nat)
    requires k <= |buffer|
    ensures var q := With(p, buffer[..k]);
      k <= |q.text| && q.text[|q.text| - k..] == buffer[..k]
  {
  }

  lemma RunsOn(d: bytes, text: bytes, buffer: bytes, m: nat)
    requires m + |buffer| < |d| && Border(d, text + buffer, m + |buffer|)
    ensures buffer == d[m..m + |buffer|]
  {
    var all, n := text + buffer, m + |buffer|;
    assert all[|all| - n..][m..] == buffer;
    assert d[..n][m..] == d[m..n];
  }

  /** A count still running on bytes carried over, at the end of the chunk, means it is swallowed. */
  lemma RunningIsSwallowed(f: Format, s: Reader, t: Reader, p: Parse, d: bytes, buffer: bytes)
    requires d == DelimiterOf(f, p.phase) && !p.phase.Header? && buffer != []
    requires Match(d, p.text) == |s.carried| && t.carried == s.carried != []
    requires Counted(t, p.text + buffer, d, buffer) && t.matched < |d|
    ensures Swallowed(f, p, buffer)
  {
    MatchIsBorder(d, p.text + buffer);
    RunsOn(d, p.text, buffer, |s.carried|);
  }

  /** What a scan leaves to be settled: nothing carried from before, unless a delimiter is complete. */
  lemma ScanLeaves(f: Format, s: Reader, p: Parse, d: bytes, buffer: bytes)
    requires Settled(f, s, p) && !p.phase.Done? && d == Delimiter(f, s)
    requires buffer != [] && !Swallowed(f, p, buffer)
    ensures var (t, k) := Scan(s, d, buffer);
      && 0 < k <= |buffer| && (t.matched < |d| ==> k == |buffer| && t.carried == [])
      && (t.matched < |d| && !t.needHeader ==> t.matched <= k)
      && Placed(f, t, p) && Passed(t, p) && Midway(t, With(p, buffer[..k]), d, buffer[..k])
  {
    DelimiterAgrees(f, s, p);
    var (t, k) := Scan(s, d, buffer);
    ScanMidway(s, p, d, buffer, []);
    assert [] + buffer[..k] == buffer[..k];
    ScanElsewhere(s, d, buffer);
    SameElsewherePlaced(f, s, t, p);
    if t.matched < |d| {
      assert buffer[..k] == buffer;
      if t.carried != [] {
        assert s.matched == |s.carried| && !p.phase.Header?;
        RunningIsSwallowed(f, s, t, p, d, buffer);
      }
    }
  }

  lemma GoesOn(d: bytes, text: bytes, buffer: bytes, m: nat, k: nat)
    requires d != [] && Match(d, text) == m && m + |buffer| < |d| && buffer == d[m..m + |buffer|] && k <= |buffer|
    ensures Match(d, text + buffer[..k]) == m + k
  {
    assert buffer[..k] == d[m..m + k];
    MatchGoesOn(d, text, m, k);
  }

  /** The length below zero is computed exactly for the chunks called swallowed. */
  lemma NegativeLengthIffSwallowed(f: Format, s: Reader, p: Parse, d: bytes, buffer: bytes)
    requires Settled(f, s, p) && !p.phase.Done? && d == Delimiter(f, s) && buffer != []
    ensures var (t, k) := Scan(s, d, buffer);
      Swallowed(f, p, buffer) <==> !t.needHeader && 0 < t.matched < |d| && k < t.matched
  {
    DelimiterAgrees(f, s, p);
    if Swallowed(f, p, buffer) {
      SwallowedIsNegative(f, s, p, d, buffer);
    } else {
      ScanLeaves(f, s, p, d, buffer);
    }
  }

  lemma SwallowedIsNegative(f: Format, s: Reader, p: Parse, d: bytes, buffer: bytes)
    requires Settled(f, s, p) && !p.phase.Done? && d == DelimiterOf(f, p.phase) && buffer != []
    requires Swallowed(f, p, buffer)
    ensures var (t, k) := Scan(s, d, buffer); !t.needHeader && 0 < t.matched < |d| && k < t.matched
  {
    var (t, k) := Scan(s, d, buffer);
    ScanCounts(f, s, p, d, buffer);
    SwallowedCounts(f, p, d, buffer, k);
  }

  lemma SwallowedCounts(f: Format, p: Parse, d: bytes, buffer: bytes, k: nat)
    requires Swallowed(f, p, buffer) && d == DelimiterOf(f, p.phase) && k <= |buffer|
    ensures !p.phase.Header? && k < Match(d, p.text + buffer[..k]) < |d|
  {
    GoesOn(d, p.text, buffer, Match(d, p.text), k);
  }

  lemma ScanCounts(f: Format, s: Reader, p: Parse, d: bytes, buffer: bytes)
    requires Settled(f, s, p) && !p.phase.Done? && d == DelimiterOf(f, p.phase) && buffer != []
    ensures var (t, k) := Scan(s, d, buffer);
      k <= |buffer| && t.matched == Match(d, p.text + buffer[..k]) && (t.needHeader <==> p.phase.Header?)
  {
    DelimiterAgrees(f, s, p);
    var (t, k) := Scan(s, d, buffer);
    ScanMidway(s, p, d, buffer, []);
    ScanElsewhere(s, d, buffer);
    assert With(p, buffer[..k]).text == p.text + buffer[..k];
  }

  lemma SettleKeeps(f: Format, t: Reader, q: Parse, d: bytes, buffer: bytes, k: nat)
    requires d == DelimiterOf(f, q.phase) && !q.phase.Done? && k <= |buffer|
    requires Placed(f, t, q) && Passed(t, q) && Midway(t, q, d, buffer[..k])
    requires t.matched < |d| ==> k == |buffer| && t.carried == []
    requires k <= |q.text| && q.text[|q.text| - k..] == buffer[..k]
    ensures Settled(f, Settle(f, t, d, buffer, k), Scanned(f, q))
    ensures t.matched == |d| ==> Scanned(f, q).text == []
  {
    if t.matched == |d| {
      match q.phase
      case Preamble => EndOfPreamble(f, t, q, d, buffer, k);
      case Header(_) => EndOfHeader(f, t, q, buffer, k);
      case Body(_) => EndOfBody(f, t, q, d, buffer, k);
    } else {
      assert buffer[..k] == buffer;
      EndOfBuffer(f, t, q, d, buffer);
    }
  }

  /** One portion of a buffer: scanning to a delimiter or the end, and what follows from it. */
  lemma PortionKeeps(f: Format, s: Reader, p: Parse, d: bytes, buffer: bytes)
    requires Settled(f, s, p) && !p.phase.Done? && d == Delimiter(f, s)
    requires buffer != [] && !Swallowed(f, p, buffer)
    ensures var (t, k) := Scan(s, d, buffer);
      && Settled(f, Settle(f, t, d, buffer, k), Feed(f, p, buffer[..k]))
      && (k < |buffer| ==> Feed(f, p, buffer[..k]).text == [])
  {
    DelimiterAgrees(f, s, p);
    var (t, k) := Scan(s, d, buffer);
    ScanLeaves(f, s, p, d, buffer);
    ScanFeeds(f, s, p, d, buffer);
    TextEnds(p, buffer, k);
    SettleKeeps(f, t, With(p, buffer[..k]), d, buffer, k);
  }

  lemma RestFits(f: Format, p: Parse, buffer: bytes, k: nat)
    requires Fits(f, p, buffer) && k <= |buffer|
    requires k < |buffer| ==> Feed(f, p, buffer[..k]).text == []
    ensures Fits(f, Feed(f, p, buffer[..k]), buffer[k..])
  {
    forall j | 0 <= j < |buffer[k..]|
      ensures !Feed(f, Feed(f, p, buffer[..k]), buffer[k..][..j]).phase.Done?
    {
      assert buffer[..k] + buffer[k..][..j] == buffer[..k + j];
      FeedAppend(f, p, buffer[..k], buffer[k..][..j]);
    }
  }

  /** A read call, one portion at a time. */
  lemma ReadPortion(f: Format, s: Reader, buffer: bytes, k: nat)
    requires buffer != [] && s.matched < |Delimiter(f, s)| && k == Scan(s, Delimiter(f, s), buffer).1
    ensures var d := Delimiter(f, s);
      0 < k <= |buffer| && Read(f, s, buffer) == Read(f, Settle(f, Scan(s, d, buffer).0, d, buffer, k), buffer[k..])
  {
  }

  lemma FeedPortion(f: Format, p: Parse, buffer: bytes, k: nat)
    requires k <= |buffer|
    ensures Feed(f, p, buffer) == Feed(f, Feed(f, p, buffer[..k]), buffer[k..])
  {
    assert buffer[..k] + buffer[k..] == buffer;
    FeedAppend(f, p, buffer[..k], buffer[k..]);
  }

  lemma FitsIsNotDone(f: Format, p: Parse, buffer: bytes)
    requires Fits(f, p, buffer) && buffer != []
    ensures !p.phase.Done?
  {
    assert buffer[..0] == [];
    FeedNone(f, p);
  }

  /** A read call takes the reader to where the byte-by-byte parse is after its buffer. */
  lemma {:induction false} ReadKeeps(f: Format, s: Reader, p: Parse, buffer: bytes)
    requires Settled(f, s, p) && Fits(f, p, buffer)
    ensures Settled(f, Read(f, s, buffer), Feed(f, p, buffer))
    decreases |buffer|
  {
    if buffer == [] {
      FeedNone(f, p);
    } else {
      FitsIsNotDone(f, p, buffer);
      var d := Delimiter(f, s);
      var (t, k) := Scan(s, d, buffer);
      PortionKeeps(f, s, p, d, buffer);
      RestFits(f, p, buffer, k);
      ReadPortion(f, s, buffer, k);
      FeedPortion(f, p, buffer, k);
      ReadKeeps(f, Settle(f, t, d, buffer, k), Feed(f, p, buffer[..k]), buffer[k..]);
    }
  }

  // ---- all calls ----

  function ReadAll(f: Format, s: Reader, chunks: seq<bytes>): Reader {
    if chunks == [] then s
    else Read(f, ReadAll(f, s, chunks[..|chunks| - 1]), chunks[|chunks| - 1])
  }

  /** The chunkings the source takes: only the last may be shorter than a delimiter can be. */
  predicate Chunking(f: Format, message: bytes, chunks: seq<bytes>) {
    Concat(chunks) == message && forall i :: 0 <= i < |chunks| - 1 ==> |f.boundary| + 8 <= |chunks[i]|
  }

  lemma InitialSettled(f: Format, p: Parse)
    requires p == START
    ensures Settled(f, Initial(f), p)
  {
  }

  lemma LastChunk(f: Format, s: Reader, p: Parse, chunks: seq<bytes>, k: nat)
    requires 0 < k <= |chunks|
    ensures ReadAll(f, s, chunks[..k]) == Read(f, ReadAll(f, s, chunks[..k - 1]), chunks[k - 1])
    ensures Feed(f, p, Concat(chunks[..k])) == Feed(f, Feed(f, p, Concat(chunks[..k - 1])), chunks[k - 1])
  {
    var before := chunks[..k - 1];
    assert chunks[..k] == before + [chunks[k - 1]] && chunks[..k][..k - 1] == before;
    FeedChunks(f, p, before, chunks[k - 1]);
  }

  /** Each chunk fits the parse as it is after the chunks before it. */
  ghost predicate AllFit(f: Format, p: Parse, chunks: seq<bytes>) {
    forall i :: 0 <= i < |chunks| ==> Fits(f, Feed(f, p, Concat(chunks[..i])), chunks[i])
  }

  lemma AllChunksFit(f: Format, p: Parse, message: bytes, chunks: seq<bytes>)
    requires Free(f.boundary, CR) && Split(f, message).Some? && OpeningSeen(f, message)
    requires p == START && Chunking(f, message, chunks)
    ensures AllFit(f, p, chunks)
  {
    forall i | 0 <= i < |chunks|
      ensures Fits(f, Feed(f, p, Concat(chunks[..i])), chunks[i])
    {
      ChunkingFits(f, p, message, chunks, i);
    }
  }

  lemma {:induction false} CallsKeep(f: Format, s: Reader, p: Parse, chunks: seq<bytes>, k: nat)
    requires Settled(f, s, p) && AllFit(f, p, chunks) && k <= |chunks|
    ensures Settled(f, ReadAll(f, s, chunks[..k]), Feed(f, p, Concat(chunks[..k])))
  {
    if k == 0 {
      FeedNone(f, p);
    } else {
      CallsKeep(f, s, p, chunks, k - 1);
      LastChunk(f, s, p, chunks, k);
      ReadKeeps(f, ReadAll(f, s, chunks[..k - 1]), Feed(f, p, Concat(chunks[..k - 1])), chunks[k - 1]);
    }
  }

  /**
   * A reader that is itself a part of a reader: given the pieces of its part, it splits the part's
   * body if none of the pieces is swallowed. Nothing else is asked of how the outer message is cut.
   */
  lemma NestedReaderSplits(f: Format, body: bytes, pieces: seq<bytes>)
    requires Free(f.boundary, CR) && Split(f, body).Some? && OpeningSeen(f, body) && Concat(pieces) == body
    requires forall k :: 0 <= k < |pieces| ==> !Swallowed(f, Feed(f, START, Concat(pieces[..k])), pieces[k])
    ensures var r := ReadAll(f, Initial(f), pieces); var bodies := Split(f, body).value;
      && r.part == f.parts == |bodies| == |r.delivered|
      && forall i :: 0 <= i < f.parts ==> Complete(r.delivered[i], bodies[i])
  {
    var p := START;
    InitialSettled(f, p);
    forall k | 0 <= k < |pieces|
      ensures Fits(f, Feed(f, p, Concat(pieces[..k])), pieces[k])
    {
      FitsIffNotSwallowed(f, p, body, pieces, k);
    }
    CallsKeep(f, Initial(f), p, pieces, |pieces|);
    assert pieces[..|pieces|] == pieces;
    FeedIsSplit(f, p, body);
  }

  lemma WholeMessage(f: Format, s: Reader, p: Parse, message: bytes, chunks: seq<bytes>)
    requires Free(f.boundary, CR) && Split(f, message).Some? && OpeningSeen(f, message)
    requires p == START && s == Initial(f) && Chunking(f, message, chunks)
    ensures Settled(f, ReadAll(f, s, chunks), Parse(Done, [], Split(f, message).value))
    ensures forall k :: 0 <= k <= |chunks| ==> Settled(f, ReadAll(f, s, chunks[..k]), Feed(f, p, Concat(chunks[..k])))
  {
    InitialSettled(f, p);
    AllChunksFit(f, p, message, chunks);
    forall k | 0 <= k <= |chunks|
      ensures Settled(f, ReadAll(f, s, chunks[..k]), Feed(f, p, Concat(chunks[..k])))
    {
      CallsKeep(f, s, p, chunks, k);
    }
    assert chunks[..|chunks|] == chunks;
    FeedIsSplit(f, p, message);
  }

  /** However the message is cut up, every part gets its body of the one-shot split, and its end. */
  lemma ReaderSplits(f: Format, message: bytes, chunks: seq<bytes>)
    requires Free(f.boundary, CR) && Split(f, message).Some? && OpeningSeen(f, message)
    requires Chunking(f, message, chunks)
    ensures var r := ReadAll(f, Initial(f), chunks); var bodies := Split(f, message).value;
      && r.part == f.parts == r.announced == |bodies| == |r.delivered|
      && forall i :: 0 <= i < f.parts ==> Complete(r.delivered[i], bodies[i])
  {
    WholeMessage(f, Initial(f), START, message, chunks);
  }

  /** In the middle of a message: the parts already passed are complete, and no part is ahead. */
  lemma ReaderIsInOrder(f: Format, message: bytes, chunks: seq<bytes>, k: nat)
    requires Free(f.boundary, CR) && Split(f, message).Some? && OpeningSeen(f, message)
    requires Chunking(f, message, chunks) && k <= |chunks|
    ensures var r := ReadAll(f, Initial(f), chunks[..k]); var bodies := Split(f, message).value;
      && -1 <= r.part <= f.parts == |r.delivered| == |bodies|
      && (forall i :: 0 <= i < r.part ==> Complete(r.delivered[i], bodies[i]))
      && (forall i :: 0 <= i < f.parts && r.part < i ==> r.delivered[i] == [])
  {
    WholeMessage(f, Initial(f), START, message, chunks);
    PrefixOfSplit(f, START, message, chunks, k);
  }

  lemma PrefixOfSplit(f: Format, p: Parse, message: bytes, chunks: seq<bytes>, k: nat)
    requires Free(f.boundary, CR) && Split(f, message).Some? && OpeningSeen(f, message)
    requires p == START && Chunking(f, message, chunks) && k <= |chunks|
    ensures Feed(f, p, Concat(chunks[..k])).bodies <= Split(f, message).value
  {
    FeedKeepsBodies(f, Feed(f, p, Concat(chunks[..k])), Concat(chunks[k..]));
    ConcatAppend(chunks[..k], chunks[k..]);
    assert chunks[..k] + chunks[k..] == chunks;
    FeedAppend(f, p, Concat(chunks[..k]), Concat(chunks[k..]));
    FeedIsSplit(f, p, message);
  }

  lemma {:induction false} FeedKeepsBodies(f: Format, p: Parse, input: bytes)
    ensures p.bodies <= Feed(f, p, input).bodies
    decreases |input|
  {
    if input == [] {
      FeedNone(f, p);
    } else {
      var n := |input| - 1;
      assert input[..n] + [input[n]] == input;
      FeedStep(f, p, input[..n], input[n]);
      FeedKeepsBodies(f, p, input[..n]);
    }
  }
}
