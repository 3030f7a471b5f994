/** What is put on the wire, spelled out in characters: queries, form data and multipart messages. */
module WireFormat {
  import opened Bytes
  import opened Delimiters
  import opened MultipartText
  import opened UriEncoding
  import opened FormText
  import opened FormEncoding

  function Ascii(s: string): bytes
    requires forall i :: 0 <= i < |s| ==> s[i] as int < 128
  {
    seq(|s|, i requires 0 <= i < |s| => s[i] as byte)
  }

  // ---- which headers and parameters are left out ----

  predicate Increasing(at: seq<nat>, n: nat) {
    (forall k :: 0 <= k < |at| ==> at[k] < n) && forall j, k :: 0 <= j < k < |at| ==> at[j] < at[k]
  }

  predicate Halved(p: KeyValue) {
    p.key.None? || p.value.None?
  }

  predicate Same(p: KeyValue, pair: Pair) {
    p == KeyValue(Some(pair.key), Some(pair.value))
  }

  /** The pairs are the parameters in these places, in order, and each other parameter lacks a half. */
  predicate Picked(params: seq<KeyValue>, pairs: seq<Pair>, at: seq<nat>) {
    && |at| == |pairs| && Increasing(at, |params|)
    && (forall k :: 0 <= k < |at| ==> Same(params[at[k]], pairs[k]))
    && forall i :: 0 <= i < |params| && i !in at ==> Halved(params[i])
  }

  lemma PickedMore(params: seq<KeyValue>, p: KeyValue, pair: Pair, pairs: seq<Pair>, at: seq<nat>)
    requires Picked(params, pairs, at) && Same(p, pair)
    ensures Picked(params + [p], pairs + [pair], at + [|params|])
  {
    var all, more, places := params + [p], pairs + [pair], at + [|params|];
    assert forall i :: 0 <= i < |params| ==> all[i] == params[i];
    assert places[|at|] == |params| && forall i :: i in at ==> i in places;
  }

  lemma PickedFewer(params: seq<KeyValue>, p: KeyValue, pairs: seq<Pair>, at: seq<nat>)
    requires Picked(params, pairs, at) && Halved(p)
    ensures Picked(params + [p], pairs, at)
  {
    var all := params + [p];
    assert forall i :: 0 <= i < |params| ==> all[i] == params[i];
  }

  /** Those written are those with a key and a value, as they are given and in the order given. */
  lemma {:induction false} PresentAre(params: seq<KeyValue>) returns (at: seq<nat>)
    ensures Picked(params, Present(params), at)
    decreases |params|
  {
    at := [];
    if params != [] {
      var n := |params| - 1;
      var p, before := params[n], Present(params[..n]);
      at := PresentAre(params[..n]);
      FrontAndLast(params);
      if p.key.Some? && p.value.Some? {
        PickedMore(params[..n], p, Pair(p.key.value, p.value.value), before, at);
        at := at + [n];
      } else {
        assert before + [] == before;
        PickedFewer(params[..n], p, before, at);
      }
    }
  }

  // ---- multipart messages ----

  lemma DelimitersSpelled(boundary: bytes)
    ensures Opening(boundary) == Ascii("--") + boundary + Ascii("\r\n")
    ensures Middle(boundary) == Ascii("\r\n--") + boundary + Ascii("\r\n")
    ensures Closing(boundary) == Ascii("\r\n--") + boundary + Ascii("--\r\n")
    ensures HEADER_END == Ascii("\r\n\r\n")
  {
    assert Ascii("\r\n") == CRLF && Ascii("--") == DASHES;
    assert Ascii("\r\n--") == CRLF + DASHES && Ascii("--\r\n") == DASHES + CRLF;
  }

  function HeaderLine(p: Pair): bytes {
    p.key + Ascii(": ") + p.value + Ascii("\r\n")
  }

  function HeaderLines(pairs: seq<Pair>): seq<bytes> {
    seq(|pairs|, i requires 0 <= i < |pairs| => HeaderLine(pairs[i]))
  }

  lemma LineSpelled(h: KeyValue)
    ensures Line(h) == if h.key.Some? && h.value.Some? then HeaderLine(Pair(h.key.value, h.value.value)) else []
  {
    assert Ascii(": ") == [COLON, SPACE] && Ascii("\r\n") == CRLF;
  }

  lemma HeaderLinesMore(pairs: seq<Pair>, p: Pair)
    ensures Concat(HeaderLines(pairs + [p])) == Concat(HeaderLines(pairs)) + HeaderLine(p)
  {
    assert HeaderLines(pairs + [p]) == HeaderLines(pairs) + [HeaderLine(p)];
    ConcatAppend(HeaderLines(pairs), [HeaderLine(p)]);
    ConcatOne(HeaderLine(p));
  }

  lemma {:induction false} LinesSpelled(headers: seq<KeyValue>)
    ensures Lines(headers) == Concat(HeaderLines(Present(headers)))
    decreases |headers|
  {
    if headers != [] {
      var n := |headers| - 1;
      var h := headers[n];
      LinesSpelled(headers[..n]);
      LineSpelled(h);
      if h.key.Some? && h.value.Some? {
        HeaderLinesMore(Present(headers[..n]), Pair(h.key.value, h.value.value));
      } else {
        assert Present(headers[..n]) + [] == Present(headers[..n]);
        assert Lines(headers[..n]) + [] == Lines(headers[..n]);
      }
    }
  }

  /** A part with the delimiter before it. */
  function PartText(boundary: bytes, part: Part): bytes {
    Ascii("\r\n--") + boundary + Ascii("\r\n")
    + Concat(HeaderLines(Present(part.headers))) + Ascii("\r\n") + Render(part.content)
  }

  function PartTexts(c: Content, i: nat): seq<bytes>
    requires c.Parts? && i <= |c.parts|
  {
    seq(|c.parts| - i, k requires 0 <= k < |c.parts| - i => PartText(c.boundary, c.parts[i + k]))
  }

  lemma PartSpelled(boundary: bytes, part: Part)
    ensures Lead(boundary, part.headers) + Render(part.content) == PartText(boundary, part)
  {
    DelimitersSpelled(boundary);
    LinesSpelled(part.headers);
    assert Ascii("\r\n") == CRLF;
  }

  lemma TextsFrom(c: Content, i: nat)
    requires c.Parts? && i < |c.parts|
    ensures PartTexts(c, i) == [PartText(c.boundary, c.parts[i])] + PartTexts(c, i + 1)
  {
  }

  lemma {:induction false} FromSpelled(c: Content, i: nat)
    requires c.Parts? && i <= |c.parts|
    ensures RenderFrom(c, i) == Concat(PartTexts(c, i)) + Closing(c.boundary)
    decreases |c.parts| - i
  {
    if i < |c.parts| {
      var part := c.parts[i];
      FromSpelled(c, i + 1);
      PartSpelled(c.boundary, part);
      TextsFrom(c, i);
      Assoc(Lead(c.boundary, part.headers), Render(part.content), RenderFrom(c, i + 1));
      Assoc(PartText(c.boundary, part), Concat(PartTexts(c, i + 1)), Closing(c.boundary));
    } else {
      assert [] + Closing(c.boundary) == Closing(c.boundary);
    }
  }

  /** A multipart is its parts with their delimiters and header lines, one after another, and the closing delimiter. */
  lemma MultipartSpelled(boundary: bytes, parts: seq<Part>)
    ensures Render(Parts(boundary, parts))
      == Concat(PartTexts(Parts(boundary, parts), 0)) + (Ascii("\r\n--") + boundary + Ascii("--\r\n"))
  {
    FromSpelled(Parts(boundary, parts), 0);
    DelimitersSpelled(boundary);
  }

  // ---- queries and form data ----

  function FieldText(p: Pair): bytes {
    Escape(p.key) + Ascii("=") + Escape(p.value)
  }

  /** Each field after its separator, of which the first is another. */
  function FieldTexts(first: bytes, pairs: seq<Pair>): seq<bytes> {
    seq(|pairs|, i requires 0 <= i < |pairs| => (if i == 0 then first else Ascii("&")) + FieldText(pairs[i]))
  }

  lemma {:induction false} JoinedFrom(first: bytes, pairs: seq<Pair>)
    requires pairs != []
    ensures Concat(FieldTexts(first, pairs)) == first + Joined(pairs)
    decreases |pairs|
  {
    var f := first + FieldText(pairs[0]);
    assert Ascii("=") == [EQUALS] && Ascii("&") == [AMPERSAND] && Field(pairs[0]) == FieldText(pairs[0]);
    if |pairs| == 1 {
      assert FieldTexts(first, pairs) == [f];
      ConcatOne(f);
    } else {
      JoinedFrom(Ascii("&"), pairs[1..]);
      assert FieldTexts(first, pairs) == [f] + FieldTexts(Ascii("&"), pairs[1..]);
      Assoc(first, Field(pairs[0]), [AMPERSAND] + Joined(pairs[1..]));
    }
  }

  /** Form data is key=value, escaped, with ampersands between. */
  lemma FormSpelled(pairs: seq<Pair>)
    ensures Joined(pairs) == Concat(FieldTexts([], pairs))
  {
    if pairs != [] {
      JoinedFrom([], pairs);
      assert [] + Joined(pairs) == Joined(pairs);
    }
  }

  /** A query is the same after a question mark, and there is none without a parameter that has a key and a value. */
  lemma QuerySpelled(uri: bytes, params: seq<KeyValue>)
    ensures WithQuery(uri, Present(params)) == uri + Concat(FieldTexts(Ascii("?"), Present(params)))
  {
    var pairs := Present(params);
    assert Ascii("?") == [QUESTION];
    if pairs == [] {
      assert uri + [] == uri;
    } else {
      JoinedFrom(Ascii("?"), pairs);
    }
  }

  // ---- the space measured ----

  /** Whether all bytes of these keys and values are escaped by their digits. */
  predicate AllFill(pairs: seq<Pair>) {
    forall i :: 0 <= i < |pairs| ==> Fills(pairs[i].key) && Fills(pairs[i].value)
  }

  lemma AllFillLast(pairs: seq<Pair>, n: nat)
    requires |pairs| == n + 1
    ensures AllFill(pairs) <==> AllFill(pairs[..n]) && Fills(pairs[n].key) && Fills(pairs[n].value)
  {
    assert forall i :: 0 <= i < n ==> pairs[..n][i] == pairs[i];
  }

  lemma FieldFills(p: Pair)
    ensures |Field(p)| <= 1 + 3 * |p.key| + 3 * |p.value|
    ensures |Field(p)| == 1 + 3 * |p.key| + 3 * |p.value| <==> Fills(p.key) && Fills(p.value)
  {
    EscapeFits(p.key);
    EscapeFits(p.value);
    EscapeFillsIff(p.key);
    EscapeFillsIff(p.value);
  }

  /**
   * The space measured for form data is just enough: all of it is used, with the byte for the terminator,
   * if and only if every byte takes three.
   */
  lemma {:induction false} BoundIsReachedIff(pairs: seq<Pair>)
    requires pairs != []
    ensures |Joined(pairs)| + 1 <= Bound(pairs)
    ensures |Joined(pairs)| + 1 == Bound(pairs) <==> AllFill(pairs)
    decreases |pairs|
  {
    var n := |pairs| - 1;
    FrontAndLast(pairs);
    JoinedGrows(pairs, pairs[..n], pairs[n]);
    FieldFills(pairs[n]);
    AllFillLast(pairs, n);
    if n > 0 {
      BoundIsReachedIff(pairs[..n]);
    }
  }
}
