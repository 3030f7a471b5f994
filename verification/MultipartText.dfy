/** What a multipart body is, written out at once. */
module MultipartText {
  import opened Bytes
  import opened Delimiters

  /**
   * A block of data, data from a callback of the caller's own, or parts with a boundary. `pace` says
   * how much each call of the caller's own callback gives, beyond the first byte.
   */
  datatype Content =
    | Block(data: bytes)
    | Supplied(data: bytes, pace: seq<nat>)
    | Parts(boundary: bytes, parts: seq<Part>)

  datatype Part = Part(headers: seq<KeyValue>, content: Content)

  function Line(h: KeyValue): bytes {
    if h.key.Some? && h.value.Some? then h.key.value + [COLON, SPACE] + h.value.value + CRLF else []
  }

  function Lines(headers: seq<KeyValue>): bytes {
    if headers == [] then [] else Lines(headers[..|headers| - 1]) + Line(headers[|headers| - 1])
  }

  /** What precedes a part's body: the delimiter, the part's headers and a blank line. */
  function Lead(boundary: bytes, headers: seq<KeyValue>): bytes {
    Middle(boundary) + Lines(headers) + CRLF
  }

  /** Every multipart in the tree has a part. */
  predicate Proper(c: Content) {
    c.Parts? ==> c.parts != [] && forall i :: 0 <= i < |c.parts| ==> Proper(c.parts[i].content)
  }

  function Render(c: Content): bytes
    decreases c, if c.Parts? then |c.parts| + 1 else 0
  {
    if c.Parts? then RenderFrom(c, 0) else c.data
  }

  /** Part i and those after it, and the closing delimiter. */
  function RenderFrom(c: Content, i: nat): bytes
    requires c.Parts? && i <= |c.parts|
    decreases c, |c.parts| - i
  {
    if i == |c.parts| then Closing(c.boundary)
    else Lead(c.boundary, c.parts[i].headers) + (Render(c.parts[i].content) + RenderFrom(c, i + 1))
  }

  lemma {:induction false} LinesGrow(headers: seq<KeyValue>, i: nat)
    requires i <= |headers|
    ensures |Lines(headers[..i])| <= |Lines(headers)|
    decreases |headers|
  {
    if i < |headers| {
      LinesGrow(headers[..|headers| - 1], i);
      assert headers[..|headers| - 1][..i] == headers[..i];
    } else {
      assert headers[..i] == headers;
    }
  }

  /** Puts text and a terminator into the array, as sprintf does, and says where the text ends. */
  method Print(a: array<byte>, start: nat, text: bytes) returns (end: nat)
    requires start + |text| < a.Length
    modifies a
    ensures end == start + |text| && a[..end] == old(a[..start]) + text && a[end] == 0
  {
    end := start + |text|;
    forall i | 0 <= i < |text| {
      a[start + i] := text[i];
    }
    a[end] := 0;
    assert a[..start] == old(a[..start]) && a[start..end] == text;
    assert a[..end] == a[..start] + a[start..end];
  }

  /** The sizing loop counts exactly what the header lines take. */
  method Measure(headers: seq<KeyValue>) returns (n: nat)
    ensures n == |Lines(headers)|
  {
    n := 0;
    for i := 0 to |headers|
      invariant n == |Lines(headers[..i])|
    {
      assert headers[..i + 1][..i] == headers[..i];
      if headers[i].key.Some? && headers[i].value.Some? {
        n := n + |headers[i].key.value|;
        n := n + |headers[i].value.value|;
        n := n + 4;
      }
    }
    assert headers[..|headers|] == headers;
  }

  /** One line more, if the header has both halves. */
  method PrintLine(a: array<byte>, start: nat, h: KeyValue) returns (p: nat)
    requires start + |Line(h)| < a.Length
    modifies a
    ensures p == start + |Line(h)| && a[..p] == old(a[..start]) + Line(h)
  {
    p := start;
    if h.key.Some? && h.value.Some? {
      p := Print(a, start, Line(h));
    }
  }

  lemma LinesNext(headers: seq<KeyValue>, i: nat)
    requires i < |headers|
    ensures Lines(headers[..i + 1]) == Lines(headers[..i]) + Line(headers[i])
  {
    assert headers[..i + 1][..i] == headers[..i];
  }

  lemma LinesMore(headers: seq<KeyValue>, i: nat, front: bytes, lines: bytes, line: bytes, more: bytes)
    requires i < |headers| && lines == Lines(headers[..i]) && line == Line(headers[i])
    requires more == Lines(headers[..i + 1])
    ensures |lines| + |line| == |more| <= |Lines(headers)| && front + more == front + lines + line
  {
    LinesGrow(headers, i + 1);
    LinesNext(headers, i);
    Assoc(front, lines, line);
  }

  method PrintLines(a: array<byte>, start: nat, headers: seq<KeyValue>) returns (p: nat)
    requires start + |Lines(headers)| < a.Length
    modifies a
    ensures p == start + |Lines(headers)| && a[..p] == old(a[..start]) + Lines(headers)
  {
    ghost var front := a[..start];
    p := start;
    for i := 0 to |headers|
      invariant p == start + |Lines(headers[..i])| < a.Length
      invariant a[..p] == front + Lines(headers[..i])
    {
      LinesMore(headers, i, front, Lines(headers[..i]), Line(headers[i]), Lines(headers[..i + 1]));
      p := PrintLine(a, p, headers[i]);
    }
    assert headers[..|headers|] == headers;
  }

  lemma NothingBefore(text: bytes)
    ensures [] + text == text
  {
  }

  lemma Lengths(boundary: bytes)
    ensures |Middle(boundary)| == |boundary| + 6 && |Closing(boundary)| == |boundary| + 8
  {
  }

  /** Prints the text before a part, given room for it. */
  method PrintLead(a: array<byte>, delimiter: bytes, headers: Option<seq<KeyValue>>) returns (p: nat)
    requires a.Length == |delimiter| + 9 + if headers.Some? then |Lines(headers.value)| else 0
    modifies a
    ensures p == a.Length - 1 && a[p] == 0
    ensures a[..p] == Lead(delimiter, if headers.Some? then headers.value else [])
  {
    Lengths(delimiter);
    p := Print(a, 0, Middle(delimiter));
    assert a[..p] == Middle(delimiter) by {
      NothingBefore(Middle(delimiter));
    }
    if headers.Some? {
      p := PrintLines(a, p, headers.value);
    } else {
      assert Middle(delimiter) + [] == Middle(delimiter);
    }
    p := Print(a, p, CRLF);
  }

  /** The delimiter text in an allocation sized beforehand: exactly the text and a terminator. */
  method PrepareBoundary(delimiter: bytes, final: bool, headers: Option<seq<KeyValue>>)
    returns (text: array<byte>, length: nat)
    ensures fresh(text) && text.Length == length + 1 && text[length] == 0
    ensures text[..length] == if final then Closing(delimiter)
                              else Lead(delimiter, if headers.Some? then headers.value else [])
  {
    Lengths(delimiter);
    length := 8 + |delimiter|;
    if final {
      text := new byte[length + 1];
      NothingBefore(Closing(delimiter));
      var _ := Print(text, 0, Closing(delimiter));
    } else {
      if headers.Some? {
        var lines := Measure(headers.value);
        length := length + lines;
      }
      text := new byte[length + 1];
      var _ := PrintLead(text, delimiter, headers);
    }
  }
}
