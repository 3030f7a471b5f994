/** Key-value pairs as form text: escaped, with an equals sign between and ampersands among them. */
module FormText {
  import opened Bytes
  import opened UriEncoding

  datatype Pair = Pair(key: bytes, value: bytes)

  function Field(p: Pair): bytes { Escape(p.key) + [EQUALS] + Escape(p.value) }

  function Joined(pairs: seq<Pair>): bytes {
    if pairs == [] then []
    else if |pairs| == 1 then Field(pairs[0])
    else Field(pairs[0]) + ([AMPERSAND] + Joined(pairs[1..]))
  }

  lemma {:induction false} JoinedLast(pairs: seq<Pair>, p: Pair)
    requires pairs != []
    ensures Joined(pairs + [p]) == Joined(pairs) + ([AMPERSAND] + Field(p))
  {
    var field := Field(pairs[0]);
    assert (pairs + [p])[1..] == pairs[1..] + [p];
    if |pairs| == 1 {
      assert pairs[1..] + [p] == [p];
    } else {
      JoinedLast(pairs[1..], p);
      Assoc([AMPERSAND], Joined(pairs[1..]), [AMPERSAND] + Field(p));
      Assoc(field, [AMPERSAND] + Joined(pairs[1..]), [AMPERSAND] + Field(p));
    }
  }

  // ---- reading it back ----

  /** Where c first occurs from i on, or the end. */
  function IndexFrom(text: bytes, c: byte, i: nat): (k: nat)
    requires i <= |text|
    ensures i <= k <= |text|
    decreases |text| - i
  {
    if i == |text| || text[i] == c then i else IndexFrom(text, c, i + 1)
  }

  /** A key and a value, cut at the first equals sign and decoded. */
  function ParseField(text: bytes): Option<Pair> {
    var k := IndexFrom(text, EQUALS, 0);
    if k == |text| || Decode(text[..k]).None? || Decode(text[k + 1..]).None? then None
    else Some(Pair(Decode(text[..k]).value, Decode(text[k + 1..]).value))
  }

  /** One field or more, cut at the ampersands. */
  function ParseFields(text: bytes): Option<seq<Pair>>
    decreases |text|
  {
    var k := IndexFrom(text, AMPERSAND, 0);
    var first := ParseField(text[..k]);
    if first.None? then None
    else if k == |text| then Some([first.value])
    else Followed(first.value, ParseFields(text[k + 1..]))
  }

  function Followed(first: Pair, rest: Option<seq<Pair>>): Option<seq<Pair>> {
    if rest.Some? then Some([first] + rest.value) else None
  }

  function Parse(text: bytes): Option<seq<Pair>> {
    if text == [] then Some([]) else ParseFields(text)
  }

  lemma {:induction false} IndexFromIs(text: bytes, c: byte, i: nat, k: nat)
    requires i <= k <= |text| && (forall j :: i <= j < k ==> text[j] != c) && (k < |text| ==> text[k] == c)
    ensures IndexFrom(text, c, i) == k
    decreases k - i
  {
    if i < k {
      IndexFromIs(text, c, i + 1, k);
    }
  }

  lemma CutSlices(front: bytes, c: byte, back: bytes, text: bytes)
    requires text == front + ([c] + back)
    ensures text[..|front|] == front && text[|front| + 1..] == back && text[|front|] == c
  {
  }

  lemma FreeFront(front: bytes, c: byte, text: bytes)
    requires Free(front, c) && |front| < |text| && text[..|front|] == front && text[|front|] == c
    ensures IndexFrom(text, c, 0) == |front|
  {
    assert forall j :: 0 <= j < |front| ==> text[j] == text[..|front|][j];
    IndexFromIs(text, c, 0, |front|);
  }

  /** Text free of a separator, then the separator and more. */
  lemma CutAt(front: bytes, c: byte, back: bytes)
    requires Free(front, c)
    ensures var text := front + ([c] + back);
      IndexFrom(text, c, 0) == |front| && text[..|front|] == front && text[|front| + 1..] == back
  {
    var text := front + ([c] + back);
    CutSlices(front, c, back, text);
    FreeFront(front, c, text);
  }

  lemma FieldParses(p: Pair)
    ensures ParseField(Field(p)) == Some(p) && Free(Field(p), AMPERSAND) && Field(p) != []
  {
    EscapeFits(p.key);
    EscapeFits(p.value);
    Assoc(Escape(p.key), [EQUALS], Escape(p.value));
    CutAt(Escape(p.key), EQUALS, Escape(p.value));
    DecodeEscape(p.key);
    DecodeEscape(p.value);
  }

  lemma OneFieldParses(p: Pair)
    ensures ParseFields(Field(p)) == Some([p])
  {
    var field := Field(p);
    FieldParses(p);
    IndexFromIs(field, AMPERSAND, 0, |field|);
    assert field[..|field|] == field;
  }

  lemma MoreFieldsParse(p: Pair, rest: bytes, pairs: seq<Pair>)
    requires ParseFields(rest) == Some(pairs)
    ensures ParseFields(Field(p) + ([AMPERSAND] + rest)) == Some([p] + pairs)
  {
    FieldParses(p);
    CutAt(Field(p), AMPERSAND, rest);
  }

  lemma {:induction false} FieldsParse(pairs: seq<Pair>)
    requires pairs != []
    ensures ParseFields(Joined(pairs)) == Some(pairs)
  {
    if |pairs| == 1 {
      OneFieldParses(pairs[0]);
      assert pairs == [pairs[0]];
    } else {
      FieldsParse(pairs[1..]);
      MoreFieldsParse(pairs[0], Joined(pairs[1..]), pairs[1..]);
      assert pairs == [pairs[0]] + pairs[1..];
    }
  }

  /** Splitting at the ampersands and the first equals sign and decoding gives the pairs, in order. */
  lemma {:induction false} JoinedParsesBack(pairs: seq<Pair>)
    ensures Parse(Joined(pairs)) == Some(pairs)
  {
    if pairs != [] {
      FieldsParse(pairs);
      assert |Field(pairs[0])| > 0;
    }
  }
}
