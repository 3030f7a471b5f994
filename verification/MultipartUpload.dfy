/** Whole uploads: a writer called with one buffer after another. */
module MultipartUpload {
  import opened Bytes
  import opened MultipartText
  import opened MultipartWriters

  /**
   * What calls with buffers of these sizes may give: each the beginning of what is left, and nothing
   * only when nothing is left.
   */
  ghost predicate Calls(whole: bytes, rooms: seq<nat>, texts: seq<bytes>)
    decreases |texts|
  {
    |texts| == |rooms| && (texts != [] ==>
      var n := |texts| - 1;
      var before := Concat(texts[..n]);
      && Calls(whole, rooms[..n], texts[..n])
      && |texts[n]| <= rooms[n] && before + texts[n] <= whole
      && (0 < rooms[n] && before != whole ==> texts[n] != []))
  }

  lemma {:induction false} ConcatLast(texts: seq<bytes>)
    requires texts != []
    ensures Concat(texts) == Concat(texts[..|texts| - 1]) + texts[|texts| - 1]
  {
    var n := |texts| - 1;
    assert texts == texts[..n] + [texts[n]];
    ConcatAppend(texts[..n], [texts[n]]);
    ConcatOne(texts[n]);
  }

  /** Whatever the sizes: the calls give the whole in order, and nothing exactly from its end on. */
  lemma {:induction false} CallsGiveTheWhole(whole: bytes, rooms: seq<nat>, texts: seq<bytes>)
    requires Calls(whole, rooms, texts) && forall i :: 0 <= i < |rooms| ==> 0 < rooms[i]
    ensures Concat(texts) <= whole
    ensures forall i :: 0 <= i < |texts| ==> (texts[i] == [] <==> Concat(texts[..i]) == whole)
    ensures Min(|texts|, |whole|) <= |Concat(texts)|
    ensures |whole| <= |texts| ==> Concat(texts) == whole
    decreases |texts|
  {
    if texts != [] {
      var n := |texts| - 1;
      CallsGiveTheWhole(whole, rooms[..n], texts[..n]);
      ConcatLast(texts);
      forall i | 0 <= i < |texts|
        ensures texts[i] == [] <==> Concat(texts[..i]) == whole
      {
        if i < n {
          assert texts[..n][i] == texts[i] && texts[..n][..i] == texts[..i];
        }
      }
    }
  }

  lemma CallsMore(whole: bytes, rooms: seq<nat>, texts: seq<bytes>, room: nat, text: bytes, rest: bytes)
    requires Calls(whole, rooms, texts) && |text| <= room && Concat(texts) + (text + rest) == whole
    requires 0 < room && text + rest != [] ==> text != []
    ensures Calls(whole, rooms + [room], texts + [text])
    ensures Concat(texts + [text]) + rest == whole
  {
    assert (texts + [text])[..|texts|] == texts && (rooms + [room])[..|rooms|] == rooms;
    ConcatLast(texts + [text]);
    Assoc(Concat(texts), text, rest);
  }

  /** Calls a writer with one buffer after another. */
  method WriteAll(w: PartWriter, rooms: seq<nat>) returns (texts: seq<bytes>)
    requires w.Valid()
    modifies w.Repr
    ensures w.Valid() && Calls(old(w.rest), rooms, texts)
  {
    ghost var whole := w.rest;
    texts := [];
    assert [] + whole == whole;
    for i := 0 to |rooms|
      invariant w.Valid() && Concat(texts) + w.rest == whole
      invariant Calls(whole, rooms[..i], texts)
    {
      var text := w.Write(rooms[i]);
      CallsMore(whole, rooms[..i], texts, rooms[i], text, w.rest);
      assert rooms[..i + 1] == rooms[..i] + [rooms[i]];
      texts := texts + [text];
    }
    assert rooms[..|rooms|] == rooms;
  }

  /** Any tree of parts, set up and then written into buffers of any sizes. */
  method Upload(part: Part, rooms: seq<nat>) returns (texts: seq<bytes>)
    requires Proper(part.content)
    ensures Calls(Render(part.content), rooms, texts)
  {
    var w := PartWriter.Prepare(part);
    texts := WriteAll(w, rooms);
  }
}
