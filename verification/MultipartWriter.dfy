/** The writers: a block, a callback of the caller's own, and the multipart made of other writers. */
module MultipartWriters {
  import opened Bytes
  import opened Delimiters
  import opened MultipartText

  /**
   * A part with its data callback and that callback's state. `content` is what the caller asked to
   * have written; `parts` are the set-up copies for the parts of a multipart.
   */
  class PartWriter {
    const headers: seq<KeyValue>
    const content: Content
    const parts: seq<PartWriter>
    var offset: nat
    /** The pace of the coming calls of a caller's own callback. */
    var pace: seq<nat>
    var partIndex: nat
    var current: Option<bytes>
    var currentOffset: nat

    ghost const Repr: set<PartWriter>
    /** What is written in all, what of it is from the delimiter before part i on, and what is left. */
    ghost const whole: bytes
    ghost const tails: seq<bytes>
    /** The delimiter texts themselves. */
    ghost const texts: seq<bytes>
    ghost var rest: bytes

    predicate IsFor(part: Part) {
      headers == part.headers && content == part.content
    }

    ghost predicate Renders(part: Part) {
      IsFor(part) && whole == Render(part.content)
    }

    /** The set-up copies mirror the tree and share nothing. */
    ghost predicate Mirrors() {
      && this in Repr
      && |parts| == (if content.Parts? then |content.parts| else 0)
      && (forall i :: 0 <= i < |parts| ==>
        && parts[i].IsFor(content.parts[i])
        && parts[i] in Repr && parts[i].Repr <= Repr && this !in parts[i].Repr)
      && Separate(parts)
    }

    ghost predicate Tails() {
      content.Parts? ==> |content.parts| == |parts| && TailsOf(content.boundary, parts, texts, whole, tails)
    }

    static ghost predicate TailsOf(boundary: bytes, parts: seq<PartWriter>, texts: seq<bytes>, whole: bytes,
                                   tails: seq<bytes>) {
      0 < |parts| == |tails| - 1 == |texts| - 1 && whole == tails[0] && TailsFrom(boundary, parts, texts, tails, 0)
    }

    static function TextAt(boundary: bytes, parts: seq<PartWriter>, i: nat): bytes
      requires i <= |parts|
    {
      if i == |parts| then Closing(boundary) else Lead(boundary, parts[i].headers)
    }

    /** Told in two predicates, so that a proof looks at a part's text only where it asks to. */
    static ghost predicate TailsFrom(boundary: bytes, parts: seq<PartWriter>, texts: seq<bytes>, tails: seq<bytes>,
                                     i: nat)
      requires i <= |parts| == |tails| - 1 == |texts| - 1
      decreases |parts| - i, 1
    {
      TailsMore(boundary, parts, texts, tails, i)
    }

    static ghost predicate TailsMore(boundary: bytes, parts: seq<PartWriter>, texts: seq<bytes>, tails: seq<bytes>,
                                     i: nat)
      requires i <= |parts| == |tails| - 1 == |texts| - 1
      decreases |parts| - i, 0
    {
      && texts[i] == TextAt(boundary, parts, i)
      && tails[i] == texts[i] + (if i < |parts| then parts[i].whole + tails[i + 1] else [])
      && (i < |parts| ==> TailsFrom(boundary, parts, texts, tails, i + 1))
    }

    static lemma TailsOpen(boundary: bytes, parts: seq<PartWriter>, texts: seq<bytes>, tails: seq<bytes>, i: nat)
      requires i <= |parts| == |tails| - 1 == |texts| - 1 && TailsFrom(boundary, parts, texts, tails, i)
      ensures texts[i] == TextAt(boundary, parts, i)
      ensures tails[i] == texts[i] + if i < |parts| then parts[i].whole + tails[i + 1] else []
      ensures i < |parts| ==> TailsFrom(boundary, parts, texts, tails, i + 1)
    {
      assert TailsMore(boundary, parts, texts, tails, i);
    }

    static lemma {:induction false} TailsOn(boundary: bytes, parts: seq<PartWriter>, texts: seq<bytes>,
                                            tails: seq<bytes>, i: nat, k: nat)
      requires i <= k <= |parts| == |tails| - 1 == |texts| - 1 && TailsFrom(boundary, parts, texts, tails, i)
      ensures TailsFrom(boundary, parts, texts, tails, k)
      decreases k - i
    {
      if i < k {
        TailsOpen(boundary, parts, texts, tails, i);
        TailsOn(boundary, parts, texts, tails, i + 1, k);
      }
    }

    static lemma TailAt(boundary: bytes, parts: seq<PartWriter>, texts: seq<bytes>, tails: seq<bytes>, k: nat)
      requires k <= |parts| == |tails| - 1 == |texts| - 1 && TailsFrom(boundary, parts, texts, tails, 0)
      ensures texts[k] == TextAt(boundary, parts, k)
      ensures tails[k] == texts[k] + if k < |parts| then parts[k].whole + tails[k + 1] else []
    {
      TailsOn(boundary, parts, texts, tails, 0, k);
      TailsOpen(boundary, parts, texts, tails, k);
    }

    /** The rest of the delimiter text being written. */
    function Begun(): bytes
      requires current.Some? ==> currentOffset <= |current.value|
      reads this
    {
      if current.Some? then current.value[currentOffset..] else []
    }

    /** Kept apart from `Valid`, so that a proof looks into the parts only where it asks to. */
    ghost predicate PartsValid()
      requires Mirrors()
      reads Repr - {this}
      decreases content, 0
    {
      forall i :: 0 <= i < |parts| ==> parts[i].Valid()
    }

    ghost predicate Valid()
      reads this, Repr
      decreases content, 1
    {
      && Mirrors() && Tails() && PartsValid()
      && (forall i :: partIndex < i < |parts| ==> parts[i].rest == parts[i].whole)
      && if content.Parts? then
           && partIndex <= |parts|
           && (if current.Some? then currentOffset < |current.value| else currentOffset == 0)
           && rest == Begun() + (if partIndex < |parts| then parts[partIndex].rest + tails[partIndex + 1] else [])
         else offset <= |content.data| && rest == content.data[offset..]
    }

    /** Nothing has been written. */
    ghost predicate Fresh()
      reads this, Repr
    {
      Valid() && rest == whole
    }

    /** The delimiter text, out of its allocation. */
    static method BoundaryText(delimiter: bytes, final: bool, headers: Option<seq<KeyValue>>) returns (text: bytes)
      ensures text == if final then Closing(delimiter)
                      else Lead(delimiter, if headers.Some? then headers.value else [])
      ensures text != []
    {
      var a, length := PrepareBoundary(delimiter, final, headers);
      text := a[..length];
    }

    /** The delimiter text before part k, or the closing one. */
    static method TextBefore(boundary: bytes, parts: seq<PartWriter>, k: nat) returns (text: bytes)
      requires k <= |parts|
      ensures text == TextAt(boundary, parts, k) && text != []
    {
      if k == |parts| {
        text := BoundaryText(boundary, true, None);
      } else {
        text := BoundaryText(boundary, false, Some(parts[k].headers));
      }
    }

    static method TextFor(boundary: bytes, parts: seq<PartWriter>, k: nat, ghost texts: seq<bytes>,
                          ghost tails: seq<bytes>)
      returns (text: bytes)
      requires k <= |parts| == |tails| - 1 == |texts| - 1 && TailsFrom(boundary, parts, texts, tails, 0)
      ensures text == texts[k] && text != []
      ensures tails[k] == text + if k < |parts| then parts[k].whole + tails[k + 1] else []
    {
      text := TextBefore(boundary, parts, k);
      TailAt(boundary, parts, texts, tails, k);
    }

    constructor Leaf(part: Part)
      requires !part.content.Parts?
      ensures Fresh() && whole == part.content.data && IsFor(part)
      ensures Repr == {this}
    {
      headers, content, parts := part.headers, part.content, [];
      pace := if part.content.Supplied? then part.content.pace else [];
      offset, partIndex, current, currentOffset := 0, 0, None, 0;
      whole, rest, tails, Repr := part.content.data, part.content.data, [], {this};
    }

    /** The writer of a multipart, given the writers of its parts. */
    constructor Multipart(part: Part, parts: seq<PartWriter>, ghost texts: seq<bytes>, ghost whole: bytes,
                          ghost tails: seq<bytes>)
      requires part.content.Parts? && |parts| == |part.content.parts|
      requires AllFresh(parts) && forall i :: 0 <= i < |parts| ==> parts[i].IsFor(part.content.parts[i])
      requires Separate(parts) && TailsOf(part.content.boundary, parts, texts, whole, tails)
      ensures Fresh() && this.whole == whole && IsFor(part)
      ensures Repr == {this} + Reprs(parts)
    {
      headers, content, this.parts, pace := part.headers, part.content, parts, [];
      offset, partIndex, currentOffset := 0, 0, 0;
      var text := TextFor(part.content.boundary, parts, 0, texts, tails);
      current := Some(text);
      this.texts, this.whole, this.tails, rest := texts, whole, tails, whole;
      Repr := {this} + Reprs(parts);
      new;
      assert Mirrors() && PartsValid();
      AtStart(text);
    }

    /** A multipart that has its first delimiter text to write, and its parts all that they render. */
    lemma AtStart(text: bytes)
      requires content.Parts? && Mirrors() && Tails() && PartsValid() && rest == whole
      requires forall i :: 0 <= i < |parts| ==> parts[i].rest == parts[i].whole
      requires partIndex == 0 && current == Some(text) && text != [] && currentOffset == 0
      requires tails[0] == text + (parts[0].whole + tails[1])
      ensures Fresh()
    {
      assert text[0..] == text;
    }

    static ghost function RenderTails(c: Content): seq<bytes>
      requires c.Parts?
    {
      seq(|c.parts| + 1, i requires 0 <= i <= |c.parts| => RenderFrom(c, i))
    }

    static ghost function RenderTexts(c: Content): seq<bytes>
      requires c.Parts?
    {
      seq(|c.parts| + 1, i requires 0 <= i <= |c.parts| =>
        if i == |c.parts| then Closing(c.boundary) else Lead(c.boundary, c.parts[i].headers))
    }

    static lemma {:induction false} RenderTailsAre(c: Content, parts: seq<PartWriter>, i: nat)
      requires c.Parts? && i <= |parts| == |c.parts|
      requires AllRender(parts, c.parts)
      ensures TailsFrom(c.boundary, parts, RenderTexts(c), RenderTails(c), i)
      decreases |parts| - i
    {
      if i < |parts| {
        RenderTailsAre(c, parts, i + 1);
      }
      RenderTail(c, parts, i);
      assert TailsMore(c.boundary, parts, RenderTexts(c), RenderTails(c), i);
    }

    static lemma RenderTail(c: Content, parts: seq<PartWriter>, i: nat)
      requires c.Parts? && i <= |parts| == |c.parts|
      requires AllRender(parts, c.parts)
      ensures RenderTexts(c)[i] == TextAt(c.boundary, parts, i)
      ensures RenderTails(c)[i] == RenderTexts(c)[i] +
        if i < |parts| then parts[i].whole + RenderTails(c)[i + 1] else []
    {
      if i < |parts| {
        assert RenderFrom(c, i)
            == Lead(c.boundary, c.parts[i].headers) + (Render(c.parts[i].content) + RenderFrom(c, i + 1));
      }
    }

    static ghost predicate AllRender(parts: seq<PartWriter>, trees: seq<Part>) {
      |parts| <= |trees| && forall i :: 0 <= i < |parts| ==> parts[i].Renders(trees[i])
    }

    static lemma OneMoreRenders(parts: seq<PartWriter>, w: PartWriter, trees: seq<Part>)
      requires AllRender(parts, trees) && |parts| < |trees| && w.Renders(trees[|parts|])
      ensures AllRender(parts + [w], trees)
    {
      forall i | 0 <= i <= |parts|
        ensures (parts + [w])[i].Renders(trees[i])
      {
        assert i < |parts| ==> (parts + [w])[i] == parts[i];
      }
    }

    /** Sets up the writer of a part and, within it, the writers of its parts. */
    static method Prepare(part: Part) returns (w: PartWriter)
      requires Proper(part.content)
      ensures fresh(w.Repr) && w.Fresh() && w.Renders(part)
      decreases part, 0
    {
      if part.content.Parts? {
        var parts := PrepareParts(part.content.parts);
        RenderTailsAre(part.content, parts, 0);
        w := new PartWriter.Multipart(part, parts, RenderTexts(part.content), Render(part.content),
                                      RenderTails(part.content));
      } else {
        w := new PartWriter.Leaf(part);
      }
    }

    static ghost predicate Separate(parts: seq<PartWriter>) {
      forall i, j :: 0 <= i < j < |parts| ==> parts[i].Repr !! parts[j].Repr
    }

    /** All that the writers of a list of parts consist of. */
    static ghost function Reprs(parts: seq<PartWriter>): set<PartWriter> {
      set i, w | 0 <= i < |parts| && w in parts[i].Repr :: w
    }

    static ghost predicate AllFresh(parts: seq<PartWriter>)
      reads parts, Reprs(parts)
    {
      forall i :: 0 <= i < |parts| ==> parts[i].Fresh()
    }

    static lemma OneMoreFresh(parts: seq<PartWriter>, w: PartWriter)
      requires AllFresh(parts) && Separate(parts) && w.Fresh() && Reprs(parts) !! w.Repr
      ensures AllFresh(parts + [w]) && Separate(parts + [w]) && Reprs(parts + [w]) == Reprs(parts) + w.Repr
    {
      forall i | 0 <= i < |parts|
        ensures parts[i].Repr !! w.Repr && (parts + [w])[i] == parts[i]
      {
        assert parts[i].Repr <= Reprs(parts);
      }
      assert (parts + [w])[|parts|] == w;
    }

    static method PrepareParts(trees: seq<Part>) returns (parts: seq<PartWriter>)
      requires forall i :: 0 <= i < |trees| ==> Proper(trees[i].content)
      ensures |parts| == |trees| && AllRender(parts, trees) && Separate(parts)
      ensures AllFresh(parts) && fresh(Reprs(parts))
      decreases trees
    {
      parts := [];
      for i := 0 to |trees|
        invariant |parts| == i && AllRender(parts, trees) && Separate(parts)
        invariant AllFresh(parts) && fresh(Reprs(parts))
      {
        var w := Prepare(trees[i]);
        OneMoreRenders(parts, w, trees);
        OneMoreFresh(parts, w);
        parts := parts + [w];
      }
    }

    // ---- writing: `room` is what the caller's buffer has left, `text` what is put there ----

    static lemma Split(xs: bytes, i: nat, n: nat)
      requires i + n <= |xs|
      ensures xs[i..i + n] + xs[i + n..] == xs[i..]
    {
    }

    method WriteBlock(room: nat) returns (text: bytes)
      requires Valid() && content.Block?
      modifies this
      ensures Valid() && |text| == Min(room, |old(rest)|) && text + rest == old(rest)
    {
      var amount := |content.data| - offset;
      if amount > room {
        amount := room;
      }
      text := content.data[offset..offset + amount];
      offset := offset + amount;
      rest := rest[amount..];
    }

    /** A callback of the caller's own: any pace, but nothing only at the end. */
    method WriteSupplied(room: nat) returns (text: bytes)
      requires Valid() && content.Supplied?
      modifies this
      ensures Valid() && |text| <= room && text + rest == old(rest)
      ensures 0 < room && old(rest) != [] ==> text != []
    {
      var amount := Min(room, |content.data| - offset);
      if pace != [] {
        amount, pace := Min(amount, pace[0] + 1), pace[1..];
      }
      text := content.data[offset..offset + amount];
      offset := offset + amount;
      rest := rest[amount..];
    }

    /** As much of the delimiter text as fits. */
    method TakeBoundary(room: nat) returns (text: bytes)
      requires current.Some? && currentOffset < |current.value|
      modifies `current, `currentOffset
      ensures if current.Some? then currentOffset < |current.value| && |text| == room else currentOffset == 0
      ensures |text| <= room && (0 < room ==> text != []) && text + Begun() == old(Begun())
    {
      var amount := room;
      if amount > |current.value| - currentOffset {
        amount := |current.value| - currentOffset;
      }
      text := current.value[currentOffset..currentOffset + amount];
      Split(current.value, currentOffset, amount);
      currentOffset := currentOffset + amount;
      if currentOffset == |current.value| {
        current, currentOffset := None, 0;
      }
    }

    method WriteBoundary(room: nat) returns (text: bytes)
      requires Valid() && content.Parts? && current.Some?
      modifies this
      ensures Valid() && partIndex == old(partIndex) && |text| <= room && text + rest == old(rest)
      ensures 0 < room ==> text != []
      ensures current.Some? ==> |text| == room
    {
      ghost var tail := if partIndex < |parts| then parts[partIndex].rest + tails[partIndex + 1] else [];
      text := TakeBoundary(room);
      Assoc(text, Begun(), tail);
      Leave(Begun() + tail);
    }

    /** The call of a part's own callback: the other parts are as they were. */
    method CallPart(k: nat, room: nat) returns (text: bytes)
      requires Valid() && k < |parts|
      modifies parts[k].Repr
      ensures PartsValid() && forall i :: 0 <= i < |parts| && i != k ==> parts[i].rest == old(parts[i].rest)
      ensures |text| <= room && text + parts[k].rest == old(parts[k].rest)
      ensures 0 < room && old(parts[k].rest) != [] ==> text != []
      decreases content, 0
    {
      assert PartsValid();
      assert forall i :: 0 <= i < |parts| && i != k ==> parts[i].Repr !! parts[k].Repr;
      text := parts[k].Write(room);
    }

    /** Says what is left; the parts are as they were. */
    ghost method Leave(left: bytes)
      requires Mirrors() && PartsValid()
      modifies this`rest
      ensures PartsValid() && rest == left
      ensures forall i :: 0 <= i < |parts| ==> parts[i].rest == old(parts[i].rest)
    {
      rest := left;
    }

    /** What the current part's own callback gives. */
    method WritePart(room: nat) returns (text: bytes)
      requires Valid() && content.Parts? && partIndex < |parts| && current.None? && 0 < room
      modifies Repr
      ensures Valid() && partIndex == old(partIndex) && current.None?
      ensures |text| <= room && text + rest == old(rest) && (text == [] ==> parts[partIndex].rest == [])
      decreases content, 1
    {
      ghost var tail := tails[partIndex + 1];
      text := CallPart(partIndex, room);
      Assoc(text, parts[partIndex].rest, tail);
      NothingBefore(parts[partIndex].rest + tail);
      Leave(parts[partIndex].rest + tail);
      assert Begun() == [];
    }

    /** Between parts, what is left begins with the text that comes next. */
    lemma NextTail()
      requires Valid() && content.Parts? && partIndex < |parts| && current.None? && parts[partIndex].rest == []
      ensures rest == tails[partIndex + 1]
    {
      NothingTwice(tails[partIndex + 1]);
    }

    lemma NothingTwice(text: bytes)
      ensures [] + ([] + text) == text
    {
    }

    /** On to the next part, or to the closing delimiter. */
    method FinishPart()
      requires Valid() && content.Parts? && partIndex < |parts| && current.None? && parts[partIndex].rest == []
      modifies this
      ensures Valid() && partIndex == old(partIndex) + 1 && current.Some? && rest == old(rest)
    {
      NextTail();
      var text := TextFor(content.boundary, parts, partIndex + 1, texts, tails);
      ghost var i := partIndex + 1;
      ghost var after := if i < |parts| then parts[i].whole + tails[i + 1] else [];
      GoOn(text);
      assert Mirrors() && PartsValid() && Begun() == text;
      assert rest == text + after;
    }

    /** The next delimiter text is to be written. */
    method GoOn(text: bytes)
      requires Mirrors() && PartsValid()
      modifies this`current, this`partIndex
      ensures PartsValid() && current == Some(text) && partIndex == old(partIndex) + 1
      ensures forall i :: 0 <= i < |parts| ==> parts[i].rest == old(parts[i].rest)
    {
      current := Some(text);
      partIndex := partIndex + 1;
    }

    /** Fills the caller's buffer until it is full or nothing is left. */
    method WriteMultipart(room: nat) returns (text: bytes)
      requires Valid() && content.Parts?
      modifies Repr
      ensures Valid() && |text| <= room && text + rest == old(rest)
      ensures |text| < room ==> rest == []
      decreases content, 2
    {
      text := [];
      if current.Some? {
        text := WriteBoundary(room);
      }
      while |text| < room && partIndex < |parts|
        invariant Valid() && |text| <= room && text + rest == old(rest)
        invariant |text| < room ==> current.None?
        decreases room - |text|
      {
        var more := WritePart(room - |text|);
        Assoc(text, more, rest);
        text := text + more;
        if more == [] {
          FinishPart();
          more := WriteBoundary(room - |text|);
          Assoc(text, more, rest);
          text := text + more;
        }
      }
    }

    /**
     * A call of the data callback: it gives the beginning of what is left, and nothing only if there
     * is no room or nothing left.
     */
    method Write(room: nat) returns (text: bytes)
      requires Valid()
      modifies Repr
      ensures Valid() && |text| <= room && text + rest == old(rest)
      ensures 0 < room && old(rest) != [] ==> text != []
      ensures !content.Supplied? && |text| < room ==> rest == []
      decreases content, 3
    {
      match content
      case Block(_) => text := WriteBlock(room);
      case Supplied(_, _) => text := WriteSupplied(room);
      case Parts(_, _) => text := WriteMultipart(room);
    }
  }
}
