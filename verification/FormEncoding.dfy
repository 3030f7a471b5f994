/** The two encoders that measure first and write afterwards: queries of a URI, and form data. */
module FormEncoding {
  import opened Bytes
  import opened FormText
  import opened UriEncoding

  const QUESTION: byte := 63

  /** The most that the pairs can take, with a separator and an equals sign each. */
  function Bound(pairs: seq<Pair>): nat {
    if pairs == [] then 0
    else
      var p := pairs[|pairs| - 1];
      Bound(pairs[..|pairs| - 1]) + (2 + 3 * |p.key| + 3 * |p.value|)
  }

  lemma {:induction false} JoinedFits(pairs: seq<Pair>)
    ensures |Joined(pairs)| <= Bound(pairs)
    ensures pairs != [] ==> |Joined(pairs)| < Bound(pairs)
    decreases |pairs|
  {
    if pairs != [] {
      var n := |pairs| - 1;
      JoinedFits(pairs[..n]);
      JoinedGrows(pairs, pairs[..n], pairs[n]);
      EscapeFits(pairs[n].key);
      EscapeFits(pairs[n].value);
    }
  }

  lemma JoinedGrows(all: seq<Pair>, pairs: seq<Pair>, p: Pair)
    requires all == pairs + [p]
    ensures |Joined(all)| == |Joined(pairs)| + |Field(p)| + if pairs == [] then 0 else 1
  {
    if pairs == [] {
      assert all == [p];
    } else {
      JoinedLast(pairs, p);
    }
  }

  lemma {:induction false} BoundGrows(pairs: seq<Pair>, i: nat)
    requires i <= |pairs|
    ensures Bound(pairs[..i]) <= Bound(pairs)
    decreases |pairs|
  {
    if i < |pairs| {
      BoundGrows(pairs[..|pairs| - 1], i);
      assert pairs[..|pairs| - 1][..i] == pairs[..i];
    } else {
      assert pairs[..i] == pairs;
    }
  }

  /** Writes a key, an equals sign and a value. */
  method PutField(pair: Pair, a: array<byte>, start: nat, left: nat) returns (p: nat, available: nat)
    requires |Field(pair)| <= left && start + left <= a.Length
    modifies a
    ensures p == start + |Field(pair)| && available == left - |Field(pair)|
    ensures a[..p] == old(a[..start]) + Field(pair)
  {
    p, available := UriEscape(pair.key, a, start, left);
    p, available := Put(a, p, available, EQUALS);
    p, available := UriEscape(pair.value, a, p, available);
    Assoc(old(a[..start]), Escape(pair.key), [EQUALS]);
    Assoc(old(a[..start]), Escape(pair.key) + [EQUALS], Escape(pair.value));
  }

  // ---- form data: the source asks for keys and values that are there ----

  method MeasureForm(fields: seq<Pair>) returns (n: nat)
    ensures n == Bound(fields) + 1
  {
    n := 1;
    for i := 0 to |fields|
      invariant n == Bound(fields[..i]) + 1
    {
      assert fields[..i + 1][..i] == fields[..i];
      n := n + 3 * |fields[i].key| + 3 * |fields[i].value| + 2;
    }
    assert fields[..|fields|] == fields;
  }

  /** One more field, after an ampersand unless it is the first, with room to spare for the terminator. */
  method PutNext(fields: seq<Pair>, i: nat, a: array<byte>, start: nat, left: nat) returns (p: nat, available: nat)
    requires i < |fields| && start + left == a.Length == Bound(fields) + 1
    requires start == |Joined(fields[..i])| && a[..start] == Joined(fields[..i])
    modifies a
    ensures p + available == a.Length && 0 < available
    ensures p == |Joined(fields[..i + 1])| && a[..p] == Joined(fields[..i + 1])
  {
    JoinedNext(fields, i);
    p, available := start, left;
    if i > 0 {
      p, available := Put(a, p, available, AMPERSAND);
    }
    p, available := PutField(fields[i], a, p, available);
  }

  /** What is joined grows by a field, after an ampersand unless it is the first, and stays within the bound. */
  lemma JoinedNext(fields: seq<Pair>, i: nat)
    requires i < |fields|
    ensures Joined(fields[..i + 1])
      == (if i > 0 then Joined(fields[..i]) + [AMPERSAND] else Joined(fields[..i])) + Field(fields[i])
    ensures |Joined(fields[..i + 1])| <= Bound(fields)
  {
    JoinedFits(fields[..i + 1]);
    BoundGrows(fields, i + 1);
    JoinedOn(fields[..i + 1], fields[..i], fields[i]);
  }

  lemma JoinedOn(all: seq<Pair>, pairs: seq<Pair>, p: Pair)
    requires all == pairs + [p]
    ensures Joined(all) == (if pairs != [] then Joined(pairs) + [AMPERSAND] else Joined(pairs)) + Field(p)
  {
    if pairs == [] {
      assert all == [p] && [] + Field(p) == Field(p);
    } else {
      JoinedLast(pairs, p);
      Assoc(Joined(pairs), [AMPERSAND], Field(p));
    }
  }

  /** The fields joined in the space measured for them, with the terminator. */
  method EncodeFormData(fields: seq<Pair>) returns (form: array<byte>, n: nat)
    ensures fresh(form) && form.Length == Bound(fields) + 1 && n < form.Length
    ensures form[..n] == Joined(fields) && form[n] == 0
    ensures Parse(form[..n]) == Some(fields)
  {
    JoinedParsesBack(fields);
    var left := MeasureForm(fields);
    form := new byte[left];
    n := 0;
    for i := 0 to |fields|
      invariant n + left == form.Length && 0 < left
      invariant n == |Joined(fields[..i])| && form[..n] == Joined(fields[..i])
    {
      n, left := PutNext(fields, i, form, n, left);
    }
    assert fields[..|fields|] == fields;
    form[n] := 0;
  }

  // ---- queries: parameters with no key or no value are left out ----

  /** The parameters that have a key and a value, in order. */
  function Present(params: seq<KeyValue>): (pairs: seq<Pair>)
    ensures |pairs| <= |params|
  {
    if params == [] then []
    else
      var p := params[|params| - 1];
      Present(params[..|params| - 1]) +
      (if p.key.Some? && p.value.Some? then [Pair(p.key.value, p.value.value)] else [])
  }

  function WithQuery(uri: bytes, pairs: seq<Pair>): bytes {
    if pairs == [] then uri else uri + ([QUESTION] + Joined(pairs))
  }

  lemma WithQueryLast(uri: bytes, pairs: seq<Pair>, p: Pair)
    ensures WithQuery(uri, pairs + [p])
      == WithQuery(uri, pairs) + [if pairs == [] then QUESTION else AMPERSAND] + Field(p)
  {
    if pairs == [] {
      assert pairs + [p] == [p];
      Assoc(uri, [QUESTION], Field(p));
    } else {
      JoinedLast(pairs, p);
      Assoc([QUESTION], Joined(pairs), [AMPERSAND] + Field(p));
      Assoc(uri, [QUESTION] + Joined(pairs), [AMPERSAND] + Field(p));
      Assoc(uri + ([QUESTION] + Joined(pairs)), [AMPERSAND], Field(p));
    }
  }

  lemma PresentStep(params: seq<KeyValue>, i: nat)
    requires i < |params|
    ensures var p := params[i]; var before := Present(params[..i]);
      Present(params[..i + 1])
        == if p.key.Some? && p.value.Some? then before + [Pair(p.key.value, p.value.value)] else before
  {
    assert params[..i + 1][..i] == params[..i];
    assert Present(params[..i]) + [] == Present(params[..i]);
  }

  lemma BoundLast(pairs: seq<Pair>, p: Pair)
    ensures Bound(pairs + [p]) == Bound(pairs) + (2 + 3 * |p.key| + 3 * |p.value|)
  {
    assert (pairs + [p])[..|pairs|] == pairs;
  }

  lemma WithQueryFits(uri: bytes, pairs: seq<Pair>)
    ensures |WithQuery(uri, pairs)| <= |uri| + Bound(pairs)
  {
    JoinedFits(pairs);
  }

  lemma {:induction false} PresentGrows(params: seq<KeyValue>, i: nat)
    requires i <= |params|
    ensures Bound(Present(params[..i])) <= Bound(Present(params))
    decreases |params|
  {
    if i < |params| {
      PresentGrows(params[..|params| - 1], i);
      assert params[..|params| - 1][..i] == params[..i];
      BoundGrows(Present(params), |Present(params[..|params| - 1])|);
    } else {
      assert params[..i] == params;
    }
  }

  lemma {:induction false} PresentBound(params: seq<KeyValue>, i: nat, pairs: seq<Pair>)
    requires i < |params| && pairs == Present(params[..i])
    ensures var p := params[i];
      if p.key.Some? && p.value.Some? then
        var next := pairs + [Pair(p.key.value, p.value.value)];
        Present(params[..i + 1]) == next && Bound(next) <= Bound(Present(params))
      else Present(params[..i + 1]) == pairs
  {
    PresentStep(params, i);
    PresentGrows(params, i + 1);
  }

  method MeasureQuery(uri: bytes, params: seq<KeyValue>) returns (n: nat)
    ensures n == |uri| + Bound(Present(params))
  {
    n := |uri|;
    for i := 0 to |params|
      invariant n == |uri| + Bound(Present(params[..i]))
    {
      PresentStep(params, i);
      if params[i].key.Some? && params[i].value.Some? {
        var pair := Pair(params[i].key.value, params[i].value.value);
        BoundLast(Present(params[..i]), pair);
        n := n + (2 + 3 * |pair.key| + 3 * |pair.value|);
      }
    }
    assert params[..|params|] == params;
  }

  /** One more parameter after its separator, with room to spare for the terminator. */
  method PutParameter(uri: bytes, ghost pairs: seq<Pair>, pair: Pair, delim: byte, a: array<byte>, start: nat,
                      left: nat)
    returns (p: nat, available: nat)
    requires start + left == a.Length && |uri| + Bound(pairs + [pair]) < a.Length
    requires start == |WithQuery(uri, pairs)| && a[..start] == WithQuery(uri, pairs)
    requires delim == if pairs == [] then QUESTION else AMPERSAND
    modifies a
    ensures p + available == a.Length && 0 < available
    ensures p == |WithQuery(uri, pairs + [pair])| && a[..p] == WithQuery(uri, pairs + [pair])
  {
    WithQueryFits(uri, pairs + [pair]);
    WithQueryLast(uri, pairs, pair);
    p, available := Put(a, start, left, delim);
    p, available := PutField(pair, a, p, available);
  }

  method PutParameters(uri: bytes, params: seq<KeyValue>, a: array<byte>, start: nat, left: nat)
    returns (p: nat, available: nat)
    requires start == |uri| && start + left == a.Length == |uri| + Bound(Present(params)) + 1
    requires a[..start] == uri
    modifies a
    ensures p + available == a.Length && 0 < available
    ensures a[..p] == WithQuery(uri, Present(params))
  {
    var delim := QUESTION;
    ghost var pairs: seq<Pair> := [];
    p, available := start, left;
    for i := 0 to |params|
      invariant pairs == Present(params[..i]) && delim == (if pairs == [] then QUESTION else AMPERSAND)
      invariant p + available == a.Length && 0 < available
      invariant p == |WithQuery(uri, pairs)| && a[..p] == WithQuery(uri, pairs)
    {
      PresentBound(params, i, pairs);
      if params[i].key.Some? && params[i].value.Some? {
        var pair := Pair(params[i].key.value, params[i].value.value);
        p, available := PutParameter(uri, pairs, pair, delim, a, p, available);
        delim, pairs := AMPERSAND, pairs + [pair];
      }
    }
    assert params[..|params|] == params;
  }

  /** An allocation of this length that begins with a text. */
  method NewWith(text: bytes, length: nat) returns (a: array<byte>)
    requires |text| < length
    ensures fresh(a) && a.Length == length && a[..|text|] == text
  {
    a := new byte[length];
    forall i | 0 <= i < |text| {
      a[i] := text[i];
    }
  }

  /** The URI with its query, in the space measured for it, with the terminator. */
  method AddQuery(uri: bytes, params: Option<seq<KeyValue>>) returns (complete: array<byte>, n: nat)
    ensures var pairs := if params.Some? then Present(params.value) else [];
      && fresh(complete) && complete.Length == |uri| + Bound(pairs) + 1
      && n < complete.Length && complete[n] == 0 && complete[..n] == WithQuery(uri, pairs)
  {
    if params.Some? && |params.value| > 0 {
      complete, n := AddPairs(uri, params.value);
    } else {
      complete := NewWith(uri, |uri| + 1);
      n := |uri|;
    }
    complete[n] := 0;
  }

  method AddPairs(uri: bytes, params: seq<KeyValue>) returns (complete: array<byte>, n: nat)
    ensures fresh(complete) && complete.Length == |uri| + Bound(Present(params)) + 1
    ensures n < complete.Length && complete[..n] == WithQuery(uri, Present(params))
  {
    var length := MeasureQuery(uri, params);
    complete := NewWith(uri, length + 1);
    var left;
    n, left := PutParameters(uri, params, complete, |uri|, length + 1 - |uri|);
  }

  // ---- what the encodings are for ----

  /** The text after the question mark gives the parameters back; without any there is no question mark. */
  lemma QueryParsesBack(uri: bytes, params: seq<KeyValue>)
    ensures var complete := WithQuery(uri, Present(params));
      && (Present(params) == [] ==> complete == uri)
      && (Present(params) != [] ==>
        && |uri| < |complete| && complete[..|uri|] == uri && complete[|uri|] == QUESTION
        && Parse(complete[|uri| + 1..]) == Some(Present(params)))
  {
    var pairs := Present(params);
    JoinedParsesBack(pairs);
    if pairs != [] {
      CutSlices(uri, QUESTION, Joined(pairs), WithQuery(uri, pairs));
    }
  }
}
