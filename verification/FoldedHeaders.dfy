/** Header sections of received parts with lines that go on with the one before them, and with terminators. */
module FoldedHeaders {
  import opened Bytes
  import opened Delimiters
  import opened FormText
  import opened PartHeaders
  import RH = ResponseHeader

  /** A header, and the lines that go on with it. */
  datatype Folding = Folding(header: KeyValue, more: seq<bytes>)

  predicate GoesOn(line: bytes) {
    line != [] && line[0] as char in {' ', '\t'} && Clean(line)
  }

  predicate Clean(line: bytes) {
    Free(line, CR) && Free(line, 0)
  }

  predicate Good(f: Folding) {
    Readable(f.header) && forall i :: 0 <= i < |f.more| ==> GoesOn(f.more[i])
  }

  /** Each with its line end. */
  function Ended(lines: seq<bytes>): bytes {
    if lines == [] then [] else lines[0] + CRLF + Ended(lines[1..])
  }

  function Bare(h: KeyValue): bytes
    requires Readable(h)
  {
    h.key.value + [COLON, SPACE] + h.value.value
  }

  function Text(f: Folding): bytes
    requires Good(f)
  {
    Ended([Bare(f.header)] + f.more)
  }

  function Section(foldings: seq<Folding>): bytes
    requires forall i :: 0 <= i < |foldings| ==> Good(foldings[i])
  {
    if foldings == [] then CRLF else Text(foldings[0]) + Section(foldings[1..])
  }

  function Firsts(foldings: seq<Folding>): seq<RH.Header> {
    seq(|foldings|, i requires 0 <= i < |foldings| => AsHeader(foldings[i].header))
  }

  lemma LineAt(text: bytes, pre: bytes, line: bytes, rest: bytes)
    requires text == pre + (line + CRLF + rest) && Clean(line)
    ensures CrlfFrom(text, |pre|) == |pre| + |line|
    ensures text == pre + line + CRLF + rest
  {
    var k := |pre| + |line|;
    assert text[k] == CR && text[k + 1] == LF;
    forall j | |pre| <= j < k
      ensures text[j] != CR && text[j] != 0
    {
      assert text[j] == line[j - |pre|];
    }
    LineEndsAt(text, |pre|, k);
  }

  /** The header that begins at `start` is read where a line ends that no other goes on with. */
  lemma {:induction false} ReadWhole(text: bytes, start: nat, pre: bytes, lines: seq<bytes>, rest: bytes, next: nat,
                                     got: seq<RH.Header>)
    requires lines != [] && text == pre + (Ended(lines) + rest) && start <= |pre| && next == |pre| + |Ended(lines)|
    requires Clean(lines[0]) && forall i :: 1 <= i < |lines| ==> GoesOn(lines[i])
    requires rest != [] && !Folded(rest, 0) && start <= next - 2 && got == HeaderOf(text[start..next - 2])
    ensures next <= |text| && HeadersFrom(text, start, |pre|) == got + HeadersFrom(text, next, next)
    decreases |lines|
  {
    var after := Ended(lines[1..]) + rest;
    Assoc(lines[0] + CRLF, Ended(lines[1..]), rest);
    LineAt(text, pre, lines[0], after);
    HeadersUnfold(text, start, |pre|);
    var k := |pre| + |lines[0]|;
    assert text[k + 2] == after[0];
    if |lines| == 1 {
      assert Ended(lines[1..]) == [] && after == rest;
    } else {
      assert after[0] == lines[1][0];
      ReadWhole(text, start, pre + lines[0] + CRLF, lines[1..], rest, next, got);
    }
  }

  /** Whatever follows the CR that ends its line is no part of a value. */
  lemma FirstLineCounts(h: KeyValue, rest: bytes)
    requires Readable(h) && (rest != [] ==> rest[0] == CR)
    ensures HeaderOf(Bare(h) + rest) == [AsHeader(h)]
  {
    var key, value := h.key.value, h.value.value;
    BareJoined(key, value, rest);
    SkipsBlank(value + rest);
    IndexFromIs(value + rest, CR, 0, |value|);
    assert (value + rest)[..|value|] == value;
    RH.ParsesTo(Bare(h) + rest, key, [SPACE] + (value + rest), value);
  }

  lemma BareJoined(key: bytes, value: bytes, rest: bytes)
    ensures key + [COLON, SPACE] + value + rest == key + ([COLON] + ([SPACE] + (value + rest)))
  {
    Assoc(key + [COLON, SPACE], value, rest);
    Assoc(key, [COLON, SPACE], value + rest);
    Assoc([COLON], [SPACE], value + rest);
    assert [COLON] + [SPACE] == [COLON, SPACE];
  }

  lemma SkipsBlank(text: bytes)
    requires text != [] && !RH.IsBlank(text[0])
    ensures RH.SkipBlanks([SPACE] + text) == text
  {
    assert ([SPACE] + text)[1..] == text;
  }

  /** Without its last line end a header's text is its first line, and then nothing or a CR and more. */
  lemma TextBegins(f: Folding) returns (rest: bytes)
    requires Good(f)
    ensures 2 <= |Text(f)| && Text(f)[..|Text(f)| - 2] == Bare(f.header) + rest && (rest != [] ==> rest[0] == CR)
  {
    var bare, lines := Bare(f.header), [Bare(f.header)] + f.more;
    assert lines[1..] == f.more;
    assert Text(f) == bare + CRLF + Ended(f.more);
    if f.more == [] {
      rest := [];
    } else {
      rest := CRLF + Ended(f.more)[..|Ended(f.more)| - 2];
    }
  }

  lemma SectionBegins(foldings: seq<Folding>)
    requires forall i :: 0 <= i < |foldings| ==> Good(foldings[i])
    ensures Section(foldings) != [] && !Folded(Section(foldings), 0)
  {
    if foldings != [] {
      var h := foldings[0].header;
      assert Section(foldings)[0] == Text(foldings[0])[0] == Bare(h)[0] == h.key.value[0];
    }
  }

  lemma ReadLines(text: bytes, pre: bytes, lines: seq<bytes>, whole: bytes, rest: bytes, inner: bytes, next: nat,
                  got: seq<RH.Header>)
    requires lines != [] && whole == Ended(lines) && text == pre + (whole + rest) && next == |pre| + |whole|
    requires Clean(lines[0]) && forall i :: 1 <= i < |lines| ==> GoesOn(lines[i])
    requires rest != [] && !Folded(rest, 0) && 2 <= |whole| && inner == whole[..|whole| - 2] && got == HeaderOf(inner)
    ensures next <= |text| && HeadersFrom(text, |pre|, |pre|) == got + HeadersFrom(text, next, next)
  {
    Inner(text, pre, whole, rest, next - 2, inner);
    ReadWhole(text, |pre|, pre, lines, rest, next, got);
  }

  lemma LinesOf(f: Folding) returns (lines: seq<bytes>)
    requires Good(f)
    ensures lines != [] && Ended(lines) == Text(f) && Clean(lines[0])
    ensures forall i :: 1 <= i < |lines| ==> GoesOn(lines[i])
  {
    BareIsClean(f.header);
    lines := [Bare(f.header)] + f.more;
  }

  lemma ReadFolding(text: bytes, pre: bytes, f: Folding, whole: bytes, rest: bytes, got: seq<RH.Header>, next: nat)
    requires Good(f) && whole == Text(f) && text == pre + (whole + rest) && rest != [] && !Folded(rest, 0)
    requires got == [AsHeader(f.header)] && next == |pre| + |whole|
    ensures next <= |text| && HeadersFrom(text, |pre|, |pre|) == got + HeadersFrom(text, next, next)
  {
    var lines := LinesOf(f);
    var after := TextBegins(f);
    FirstLineCounts(f.header, after);
    ReadLines(text, pre, lines, whole, rest, Bare(f.header) + after, next, got);
  }

  lemma Inner(text: bytes, pre: bytes, whole: bytes, rest: bytes, end: nat, inner: bytes)
    requires text == pre + (whole + rest) && |pre| <= end <= |pre| + |whole| && inner == whole[..end - |pre|]
    ensures text[|pre|..end] == inner
  {
  }

  lemma {:induction false} SectionReads(text: bytes, pre: bytes, foldings: seq<Folding>)
    requires forall i :: 0 <= i < |foldings| ==> Good(foldings[i])
    requires text == pre + Section(foldings)
    ensures HeadersFrom(text, |pre|, |pre|) == Firsts(foldings)
    decreases |foldings|
  {
    if foldings == [] {
      BlankLine(text, pre);
    } else {
      var f, rest := foldings[0], Section(foldings[1..]);
      SectionBegins(foldings[1..]);
      ReadFolding(text, pre, f, Text(f), rest, [AsHeader(f.header)], |pre| + |Text(f)|);
      Assoc(pre, Text(f), rest);
      SectionReads(text, pre + Text(f), foldings[1..]);
      assert Firsts(foldings) == [AsHeader(f.header)] + Firsts(foldings[1..]);
    }
  }

  /**
   * Of a header whose value goes on in lines that begin with a blank only what is on its first line is
   * read. The lines that go on are lost, and make no header of their own, with a colon in them or not.
   */
  lemma FirstLinesComeBack(foldings: seq<Folding>)
    requires forall i :: 0 <= i < |foldings| ==> Good(foldings[i])
    ensures HeadersFrom(Section(foldings), 0, 0) == Firsts(foldings)
  {
    assert Section(foldings) == [] + Section(foldings);
    SectionReads(Section(foldings), [], foldings);
  }

  // ---- terminators ----

  lemma {:induction false} CrlfBefore(text: bytes, z: nat, i: nat)
    requires i <= z < |text| && text[z] == 0
    ensures var k := CrlfFrom(text[..z], i);
      CrlfFrom(text, i) == (if k == z then |text| else k) && (k < z ==> k + 2 <= z)
    decreases z - i
  {
    if i < z && text[i] != 0 && !IsCrlf(text, i) {
      CrlfBefore(text, z, i + 1);
    }
  }

  /** Nothing is read from a terminator on. */
  lemma {:induction false} NothingAfterTerminator(text: bytes, z: nat, start: nat, next: nat)
    requires start <= next <= z < |text| && text[z] == 0
    ensures HeadersFrom(text, start, next) == HeadersFrom(text[..z], start, next)
    decreases z - next
  {
    CrlfBefore(text, z, next);
    HeadersUnfold(text, start, next);
    HeadersUnfold(text[..z], start, next);
    var k := CrlfFrom(text[..z], next);
    if k < z {
      assert Folded(text, k + 2) == Folded(text[..z], k + 2);
      assert text[..z][start..k] == text[start..k];
      NothingAfterTerminator(text, z, if Folded(text, k + 2) then start else k + 2, k + 2);
    }
  }
}
