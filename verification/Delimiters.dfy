/** Boundary delimiters of section 5.1.1 of RFC 2046, and the matcher that looks for them. */
module Delimiters {
  import opened Bytes

  const CR: byte := 13
  const LF: byte := 10
  const DASH: byte := 45
  const COLON: byte := 58
  const SPACE: byte := 32
  const CRLF: bytes := [CR, LF]
  const DASHES: bytes := [DASH, DASH]

  /** Ends the header section of a part. */
  const HEADER_END: bytes := [CR, LF, CR, LF]

  function Opening(boundary: bytes): bytes { DASHES + boundary + CRLF }

  function Middle(boundary: bytes): bytes { CRLF + DASHES + boundary + CRLF }

  function Closing(boundary: bytes): bytes { CRLF + DASHES + boundary + DASHES + CRLF }

  predicate OccursAt(d: bytes, text: bytes, i: int) {
    0 <= i && i + |d| <= |text| && text[i..i + |d|] == d
  }

  /** The first occurrence of `d` in `text` is at `i`. */
  predicate FirstAt(d: bytes, text: bytes, i: int) {
    OccursAt(d, text, i) && forall j :: 0 <= j < i ==> !OccursAt(d, text, j)
  }

  /** The matcher's step: it keeps a count of matched bytes and no failure table. */
  function Next(d: bytes, m: nat, c: byte): (r: nat)
    requires m < |d|
    ensures r <= m + 1 && r <= |d|
  {
    if c == d[m] then m + 1 else if c == d[0] then 1 else 0
  }

  /** The count after a text; it stops at a complete match. */
  function Match(d: bytes, text: bytes): (m: nat)
    requires d != []
    ensures m <= |d| && m <= |text|
  {
    if text == [] then 0
    else
      var m := Match(d, text[..|text| - 1]);
      if m == |d| then m else Next(d, m, text[|text| - 1])
  }

  /** The last k bytes of the text are the first k of the delimiter. */
  predicate Border(d: bytes, text: bytes, k: nat) {
    k <= |d| && k <= |text| && text[|text| - k..] == d[..k]
  }

  predicate Longest(d: bytes, text: bytes, m: nat) {
    Border(d, text, m) && forall k :: m < k <= |d| ==> !Border(d, text, k)
  }

  /** No match was complete before the last byte of the text. */
  predicate Unfinished(d: bytes, text: bytes)
    requires d != []
  {
    text == [] || Match(d, text[..|text| - 1]) < |d|
  }

  /**
   * The shape that makes a failure table needless: where a start of the delimiter ends in a shorter
   * start of it, both go on with the same byte.
   */
  predicate Plain(d: bytes) {
    forall m, k :: 0 < k < m < |d| && Border(d, d[..m], k) ==> d[k] == d[m]
  }

  lemma BorderStep(d: bytes, text: bytes, c: byte, k: nat)
    ensures 0 < k ==> (Border(d, text + [c], k) <==> k <= |d| && Border(d, text, k - 1) && d[k - 1] == c)
  {
    if 0 < k <= |d| && k <= |text| + 1 {
      assert (text + [c])[|text| + 1 - k..] == text[|text| - (k - 1)..] + [c];
      assert d[..k] == d[..k - 1] + [d[k - 1]];
    }
  }

  lemma BorderOfBorder(d: bytes, text: bytes, m: nat, k: nat)
    requires Border(d, text, m) && k <= m
    ensures Border(d, text, k) <==> Border(d, d[..m], k)
  {
    assert text[|text| - k..] == text[|text| - m..][m - k..];
  }

  lemma NextIsBorder(d: bytes, text: bytes, m: nat, c: byte)
    requires m < |d| && Border(d, text, m)
    ensures Border(d, text + [c], Next(d, m, c))
  {
    BorderStep(d, text, c, Next(d, m, c));
  }

  /** The count is the length of an end of the text that starts the delimiter. */
  lemma {:induction false} MatchIsBorder(d: bytes, text: bytes)
    requires d != [] && Unfinished(d, text)
    ensures Border(d, text, Match(d, text))
  {
    if text != [] {
      var before, c := text[..|text| - 1], text[|text| - 1];
      UnfinishedBefore(d, text);
      MatchIsBorder(d, before);
      assert text == before + [c];
      NextIsBorder(d, before, Match(d, before), c);
    }
  }

  /** The lengths of the ends of the text that start the delimiter. */
  ghost function Borders(d: bytes, text: bytes): set<nat> {
    set k: nat | k <= |d| && Border(d, text, k)
  }

  ghost predicate Greatest(s: set<nat>, m: nat) {
    m in s && forall k :: k in s ==> k <= m
  }

  /** One step of the matcher, on the lengths alone. */
  lemma NextIsGreatest(d: bytes, m: nat, c: byte, before: set<nat>, after: set<nat>)
    requires m < |d| && Greatest(before, m) && 0 in before
    requires forall k :: k in before && 0 < k < m ==> d[k] == d[m]
    requires forall k :: k in after ==> k <= |d|
    requires forall k: nat :: k <= |d| ==> (k in after <==> k == 0 || (k - 1 in before && d[k - 1] == c))
    ensures Greatest(after, Next(d, m, c))
  {
  }

  lemma BordersStep(d: bytes, text: bytes, c: byte)
    ensures forall k: nat :: k <= |d| ==>
      (k in Borders(d, text + [c]) <==> k == 0 || (k - 1 in Borders(d, text) && d[k - 1] == c))
  {
    forall k: nat | k <= |d|
      ensures k in Borders(d, text + [c]) <==> k == 0 || (k - 1 in Borders(d, text) && d[k - 1] == c)
    {
      BorderStep(d, text, c, k);
    }
  }

  lemma PlainBorders(d: bytes, text: bytes, m: nat)
    requires Plain(d) && m in Borders(d, text) && m < |d|
    ensures forall k :: k in Borders(d, text) && 0 < k < m ==> d[k] == d[m]
  {
    forall k | k in Borders(d, text) && 0 < k < m
      ensures d[k] == d[m]
    {
      BorderOfBorder(d, text, m, k);
    }
  }

  /** One step of the matcher, for a plain delimiter. */
  lemma GreatestNext(d: bytes, before: bytes, c: byte, m: nat)
    requires Plain(d) && m < |d| && Greatest(Borders(d, before), m)
    ensures Greatest(Borders(d, before + [c]), Next(d, m, c))
  {
    BordersStep(d, before, c);
    PlainBorders(d, before, m);
    NextIsGreatest(d, m, c, Borders(d, before), Borders(d, before + [c]));
  }

  /** No end of the text of more than m and up to k bytes starts the delimiter. */
  ghost predicate NoneAbove(d: bytes, text: bytes, m: nat, k: nat) {
    k <= m || (!Border(d, text, k) && NoneAbove(d, text, m, k - 1))
  }

  lemma {:induction false} NoneAboveIff(d: bytes, text: bytes, m: nat, k: nat)
    ensures NoneAbove(d, text, m, k) <==> forall j :: m < j <= k ==> !Border(d, text, j)
  {
    if m < k {
      NoneAboveIff(d, text, m, k - 1);
    }
  }

  lemma GreatestIff(d: bytes, text: bytes, m: nat)
    requires m <= |d| && Border(d, text, m)
    ensures NoneAbove(d, text, m, |d|) <==> Greatest(Borders(d, text), m)
  {
    NoneAboveIff(d, text, m, |d|);
    if Greatest(Borders(d, text), m) {
      forall j | m < j <= |d|
        ensures !Border(d, text, j)
      {
        assert j !in Borders(d, text);
      }
    }
  }

  lemma NoneAboveNext(d: bytes, text: bytes, m: nat)
    requires text != [] && Plain(d) && m < |d|
    requires var before := text[..|text| - 1]; Border(d, before, m) && NoneAbove(d, before, m, |d|)
    ensures NoneAbove(d, text, Next(d, m, text[|text| - 1]), |d|)
  {
    var before, c := text[..|text| - 1], text[|text| - 1];
    assert text == before + [c];
    NextIsBorder(d, before, m, c);
    GreatestIff(d, before, m);
    GreatestNext(d, before, c, m);
    GreatestIff(d, text, Next(d, m, c));
  }

  lemma {:induction false} MatchIsGreatest(d: bytes, text: bytes)
    requires d != [] && Plain(d) && Unfinished(d, text)
    ensures NoneAbove(d, text, Match(d, text), |d|)
  {
    if text == [] {
      NoneAboveIff(d, text, 0, |d|);
    } else {
      var before := text[..|text| - 1];
      UnfinishedBefore(d, text);
      MatchIsGreatest(d, before);
      MatchIsBorder(d, before);
      NoneAboveNext(d, text, Match(d, before));
    }
  }

  /** For a plain delimiter the count is the longest end of the text that starts the delimiter. */
  lemma {:induction false} MatchIsLongest(d: bytes, text: bytes)
    requires d != [] && Plain(d) && Unfinished(d, text)
    ensures Longest(d, text, Match(d, text))
  {
    MatchIsBorder(d, text);
    MatchIsGreatest(d, text);
    NoneAboveIff(d, text, Match(d, text), |d|);
  }

  lemma UnfinishedBefore(d: bytes, text: bytes)
    requires d != [] && text != [] && Unfinished(d, text)
    ensures Unfinished(d, text[..|text| - 1])
  {
  }

  lemma {:induction false} MatchPrefix(d: bytes, m: nat)
    requires 0 < m <= |d|
    ensures Match(d, d[..m]) == m && Unfinished(d, d[..m])
  {
    assert d[..m][..m - 1] == d[..m - 1];
    if m > 1 {
      MatchPrefix(d, m - 1);
    }
  }

  /** A text on which the matcher goes wrong: it forgets a start of the delimiter that goes on. */
  lemma {:induction false} WrongText(d: bytes, m: nat, k: nat) returns (text: bytes)
    requires 0 < k < m < |d| && Border(d, d[..m], k) && d[k] != d[m]
    ensures Unfinished(d, text) && !Longest(d, text, Match(d, text))
  {
    text := d[..m] + [d[k]];
    MatchPrefix(d, m);
    assert text[..m] == d[..m];
    BorderStep(d, d[..m], d[k], k + 1);
    assert Border(d, text, k + 1);
    assert Match(d, text) <= 1;
  }

  /** The matcher is right on every text exactly when the delimiter is plain. */
  lemma {:induction false} MatcherIsRightIffPlain(d: bytes)
    requires d != []
    ensures Plain(d) <==> forall text :: Unfinished(d, text) ==> Longest(d, text, Match(d, text))
  {
    if Plain(d) {
      forall text | Unfinished(d, text)
        ensures Longest(d, text, Match(d, text))
      {
        MatchIsLongest(d, text);
      }
    } else {
      var m, k :| 0 < k < m < |d| && Border(d, d[..m], k) && d[k] != d[m];
      var text := WrongText(d, m, k);
    }
  }

  // ---- which delimiters are plain ----

  /** A delimiter that starts with CR and has its only other CR, if any, last but one before LF. */
  lemma CrOnceIsPlain(d: bytes)
    requires 2 <= |d| && d[0] == CR && d[1] == LF && d[|d| - 1] == LF
    requires forall i :: 0 < i < |d| - 2 ==> d[i] != CR
    ensures Plain(d)
  {
    forall m, k | 0 < k < m < |d| && Border(d, d[..m], k)
      ensures d[k] == d[m]
    {
      assert d[..m][m - k] == d[..k][0];
      assert m - k == |d| - 2;
    }
  }

  lemma MiddleIsPlain(boundary: bytes)
    requires Free(boundary, CR)
    ensures Plain(Middle(boundary))
  {
    var d := Middle(boundary);
    assert forall i :: 4 <= i < |d| - 2 ==> d[i] == boundary[i - 4];
    CrOnceIsPlain(d);
  }

  lemma ClosingIsPlain(boundary: bytes)
    requires Free(boundary, CR)
    ensures Plain(Closing(boundary))
  {
    var d := Closing(boundary);
    assert forall i :: 4 <= i < |d| - 4 ==> d[i] == boundary[i - 4];
    CrOnceIsPlain(d);
  }

  lemma HeaderEndIsPlain()
    ensures Plain(HEADER_END)
  {
    CrOnceIsPlain(HEADER_END);
  }

  // ---- matching finds the first occurrence ----

  lemma BorderIsOccurrence(d: bytes, text: bytes, j: nat)
    requires |d| <= j <= |text|
    ensures Border(d, text[..j], |d|) <==> OccursAt(d, text, j - |d|)
  {
    assert text[..j][j - |d|..] == text[j - |d|..j];
    assert d[..|d|] == d;
  }

  lemma {:induction false} MatchFindsFirst(d: bytes, text: bytes, i: nat, j: nat)
    requires d != [] && Plain(d) && FirstAt(d, text, i) && j <= i + |d|
    ensures Unfinished(d, text[..j])
    ensures Match(d, text[..j]) == |d| <==> j == i + |d|
    decreases j
  {
    if j > 0 {
      MatchFindsFirst(d, text, i, j - 1);
      assert text[..j][..j - 1] == text[..j - 1];
    }
    MatchIsLongest(d, text[..j]);
    if |d| <= j {
      BorderIsOccurrence(d, text, j);
    }
  }

  // ---- which first occurrences are found, for delimiters of any shape ----

  /** The count is complete at the end of the occurrence at k, and not before. */
  ghost predicate Finds(d: bytes, text: bytes, k: nat)
    requires d != []
  {
    k + |d| <= |text| && forall j :: 0 <= j <= k + |d| ==> (Match(d, text[..j]) == |d| <==> j == k + |d|)
  }

  /** With m bytes matched, the delimiter's first byte begins a new match. */
  predicate Clear(d: bytes, m: nat)
    requires 0 < |d|
  {
    m == 0 || (m < |d| && d[m] != d[0])
  }

  lemma {:induction false} NotBefore(d: bytes, text: bytes, k: nat, j: nat)
    requires d != [] && FirstAt(d, text, k) && j < k + |d|
    ensures Match(d, text[..j]) < |d|
  {
    if j > 0 {
      NotBefore(d, text, k, j - 1);
      assert text[..j][..j - 1] == text[..j - 1];
      MatchIsBorder(d, text[..j]);
      if |d| <= j {
        BorderIsOccurrence(d, text, j);
      }
    }
  }

  lemma MatchAppend(d: bytes, text: bytes, c: byte)
    requires d != []
    ensures Match(d, text + [c]) == if Match(d, text) == |d| then |d| else Next(d, Match(d, text), c)
  {
    assert (text + [c])[..|text|] == text;
  }

  lemma MatchNext(d: bytes, text: bytes, j: nat)
    requires d != [] && j < |text| && Match(d, text[..j]) < |d|
    ensures Match(d, text[..j + 1]) == Next(d, Match(d, text[..j]), text[j])
  {
    assert text[..j + 1][..j] == text[..j];
  }

  lemma OccurrenceAgrees(d: bytes, text: bytes, k: nat, j: nat)
    requires j < |d|
    ensures OccursAt(d, text, k) ==> text[k + j] == d[j]
  {
    assert OccursAt(d, text, k) ==> text[k..k + |d|][j] == text[k + j];
  }

  /** Once the count agrees with an occurrence it goes on agreeing with it. */
  lemma {:induction false} CountsOn(d: bytes, text: bytes, k: nat, j: nat)
    requires OccursAt(d, text, k) && 1 <= j <= |d| && Match(d, text[..k + 1]) == 1
    ensures Match(d, text[..k + j]) == j
  {
    if j > 1 {
      CountsOn(d, text, k, j - 1);
      MatchNext(d, text, k + j - 1);
      OccurrenceAgrees(d, text, k, j - 1);
    }
  }

  /** A count complete at the end of an occurrence has agreed with it from its first byte on. */
  lemma {:induction false} CountsBack(d: bytes, text: bytes, k: nat, j: nat)
    requires d != [] && FirstAt(d, text, k) && Match(d, text[..k + |d|]) == |d| && 1 <= j <= |d|
    ensures Match(d, text[..k + j]) == j
    decreases |d| - j
  {
    if j < |d| {
      CountsBack(d, text, k, j + 1);
      NotBefore(d, text, k, k + j);
      MatchNext(d, text, k + j);
    }
  }

  /**
   * The first occurrence is found if and only if the count, where it begins, is 0 or expects another
   * byte than the delimiter's first.
   */
  lemma FoundIffClear(d: bytes, text: bytes, k: nat)
    requires d != [] && FirstAt(d, text, k)
    ensures Finds(d, text, k) <==> Clear(d, Match(d, text[..k]))
  {
    NotBefore(d, text, k, k);
    MatchNext(d, text, k);
    OccurrenceAgrees(d, text, k, 0);
    if Clear(d, Match(d, text[..k])) {
      CountsOn(d, text, k, |d|);
      forall j | 0 <= j < k + |d|
        ensures Match(d, text[..j]) < |d|
      {
        NotBefore(d, text, k, j);
      }
    } else if Match(d, text[..k + |d|]) == |d| {
      CountsBack(d, text, k, 1);
    }
  }

  // ---- the opening delimiter, which starts with dashes ----

  /** The number of leading dashes of an opening delimiter, at least two. */
  lemma LeadingDashes(boundary: bytes) returns (r: nat)
    ensures var d := Opening(boundary);
      2 <= r < |d| && d[r] != DASH && forall i :: 0 <= i < r ==> d[i] == DASH
  {
    var d := Opening(boundary);
    r := 2;
    while d[r] == DASH
      invariant 2 <= r < |d| && forall i :: 0 <= i < r ==> d[i] == DASH
      decreases |d| - r
    {
      r := r + 1;
    }
  }

  lemma DashedFirst(boundary: bytes)
    ensures FirstAt(Opening(boundary), [DASH] + Opening(boundary), 1)
  {
    var d := Opening(boundary);
    var text := [DASH] + d;
    var r := LeadingDashes(boundary);
    assert text[1..1 + |d|] == d;
    assert text[r] == d[r - 1];
    OccurrenceAgrees(d, text, 0, r);
  }

  /** One dash before it is enough to hide the opening delimiter, whatever the boundary. */
  lemma DashHidesOpening(boundary: bytes)
    ensures var d := Opening(boundary); var text := [DASH] + d;
      FirstAt(d, text, 1) && Match(d, text) < |d|
  {
    var d := Opening(boundary);
    var text := [DASH] + d;
    DashedFirst(boundary);
    FoundIffClear(d, text, 1);
    assert text[..1] == d[..1] && text[..1 + |d|] == text;
    MatchPrefix(d, 1);
    forall j | 0 <= j < 1 + |d|
      ensures Match(d, text[..j]) < |d|
    {
      NotBefore(d, text, 1, j);
    }
  }

  /** The length of the run of dashes a text ends in. */
  function Dashes(text: bytes): nat {
    if text == [] || text[|text| - 1] != DASH then 0 else 1 + Dashes(text[..|text| - 1])
  }

  lemma OpeningBytes(boundary: bytes)
    requires Free(boundary, DASH)
    ensures var d := Opening(boundary);
      d[0] == d[1] == DASH && |d| == |boundary| + 4 && forall i :: 2 <= i < |d| ==> d[i] != DASH
  {
    var d := Opening(boundary);
    assert forall i :: 2 <= i < |d| - 2 ==> d[i] == boundary[i - 2];
  }

  /** What the count says of the run of dashes before it. */
  predicate CountOf(n: nat, m: nat) {
    if n == 0 then m == 0 || 3 <= m else m == if n % 2 == 1 then 1 else 2
  }

  lemma DashesNext(boundary: bytes, n: nat, m: nat, c: byte)
    requires Free(boundary, DASH) && m < |Opening(boundary)| && CountOf(n, m)
    ensures CountOf(if c == DASH then n + 1 else 0, Next(Opening(boundary), m, c))
  {
    OpeningBytes(boundary);
  }

  /** With a boundary without dashes, the count tells an odd run of dashes from an even one. */
  lemma {:induction false} DashesCount(boundary: bytes, text: bytes)
    requires Free(boundary, DASH)
    requires forall j :: 0 <= j <= |text| ==> Match(Opening(boundary), text[..j]) < |Opening(boundary)|
    ensures CountOf(Dashes(text), Match(Opening(boundary), text))
  {
    if text != [] {
      var n := |text| - 1;
      assert text[..n + 1] == text && forall j :: 0 <= j <= n ==> text[..n][..j] == text[..j];
      DashesCount(boundary, text[..n]);
      assert Match(Opening(boundary), text[..n]) < |Opening(boundary)|;
      MatchNext(Opening(boundary), text, n);
      DashesNext(boundary, Dashes(text[..n]), Match(Opening(boundary), text[..n]), text[n]);
    }
  }

  /**
   * With a boundary without dashes: the opening delimiter is found at its first occurrence if and
   * only if the run of dashes just before it is of even length.
   */
  lemma OpeningFoundIffEven(boundary: bytes, text: bytes, k: nat)
    requires Free(boundary, DASH) && FirstAt(Opening(boundary), text, k)
    ensures Finds(Opening(boundary), text, k) <==> Dashes(text[..k]) % 2 == 0
  {
    var d := Opening(boundary);
    FoundIffClear(d, text, k);
    forall j | 0 <= j <= k
      ensures Match(d, text[..k][..j]) < |d|
    {
      NotBefore(d, text, k, j);
      assert text[..k][..j] == text[..j];
    }
    DashesCount(boundary, text[..k]);
    assert text[..k][..k] == text[..k];
    OpeningBytes(boundary);
  }

  /** In text without dashes the count never starts. */
  lemma {:induction false} DashFreeCount(boundary: bytes, text: bytes)
    requires Free(text, DASH)
    ensures Match(Opening(boundary), text) == 0
  {
    if text != [] {
      DashFreeCount(boundary, text[..|text| - 1]);
    }
  }
}
