/** Percent encoding: sections 2.1 and 2.3 of RFC 3986, with a space written as a plus sign. */
module UriEncoding {
  import opened Bytes

  const PERCENT: byte := 37
  const PLUS: byte := 43
  const BLANK: byte := 32
  const AMPERSAND: byte := 38
  const EQUALS: byte := 61

  predicate IsDigit(c: byte) { 48 <= c <= 57 }

  predicate IsLetter(c: byte) { 97 <= c <= 122 || 65 <= c <= 90 }

  /** The unreserved characters. */
  predicate IsUnreserved(c: byte) {
    IsLetter(c) || IsDigit(c) || c == 45 || c == 95 || c == 46 || c == 126
  }

  /** The upper-case digit for a nibble: an entry of the encoding table. */
  function HexDigit(n: nat): byte
    requires n < 16
  {
    if n < 10 then (48 + n) as byte else (55 + n) as byte
  }

  /** A char is signed where the source runs: its value, then that value as a 32-bit unsigned int. */
  function AsSigned(c: byte): int { if c < 128 then c as int else c as int - 256 }

  function AsUnsigned(x: int): nat { x % 0x1_0000_0000 }

  /** The table indices as the source computes them: by shifting and masking the widened char. */
  function HighNibble(c: byte): (n: nat)
    ensures n == c as nat / 16 < 16
  {
    WideningKeepsLowByte(c);
    AsUnsigned(AsSigned(c)) / 16 % 16
  }

  function LowNibble(c: byte): (n: nat)
    ensures n == c as nat % 16
  {
    WideningKeepsLowByte(c);
    AsUnsigned(AsSigned(c)) % 16
  }

  lemma WideningKeepsLowByte(c: byte)
    ensures AsUnsigned(AsSigned(c)) == c as nat || AsUnsigned(AsSigned(c)) == c as nat + 0xFFFF_FF00
  {
  }

  function EscapeByte(c: byte): (e: bytes)
    ensures 0 < |e| <= 3
    ensures forall i :: 0 <= i < |e| ==> IsUnreserved(e[i]) || e[i] == PERCENT || e[i] == PLUS
  {
    if IsUnreserved(c) then [c]
    else if c == BLANK then [PLUS]
    else [PERCENT, HexDigit(HighNibble(c)), HexDigit(LowNibble(c))]
  }

  function Escape(s: bytes): bytes {
    if s == [] then [] else Escape(s[..|s| - 1]) + EscapeByte(s[|s| - 1])
  }

  // ---- which bytes are escaped, and how ----

  /** The characters that stand for themselves, one by one as the source lists them. */
  predicate Listed(c: byte) {
    c as char in {
      'a', 'b', 'c', 'd', 'e', 'f', 'g', 'h', 'i', 'j', 'k', 'l', 'm',
      'n', 'o', 'p', 'q', 'r', 's', 't', 'u', 'v', 'w', 'x', 'y', 'z',
      'A', 'B', 'C', 'D', 'E', 'F', 'G', 'H', 'I', 'J', 'K', 'L', 'M',
      'N', 'O', 'P', 'Q', 'R', 'S', 'T', 'U', 'V', 'W', 'X', 'Y', 'Z',
      '0', '1', '2', '3', '4', '5', '6', '7', '8', '9', '-', '_', '.', '~'
    }
  }

  const DIGITS: string := "0123456789ABCDEF"

  /** What a byte is written as. */
  function Spelled(c: byte): bytes {
    if Listed(c) then [c]
    else if c as char == ' ' then ['+' as byte]
    else ['%' as byte, DIGITS[c / 16] as byte, DIGITS[c % 16] as byte]
  }

  lemma ListedAreUnreserved(c: byte)
    ensures Listed(c) <==> IsUnreserved(c)
  {
  }

  lemma DigitsAre(n: nat)
    requires n < 16
    ensures DIGITS[n] as byte == HexDigit(n)
  {
    var all := seq(16, i requires 0 <= i < 16 => HexDigit(i) as char);
    assert DIGITS == all;
  }

  lemma SpelledSo(c: byte)
    ensures EscapeByte(c) == Spelled(c)
  {
    ListedAreUnreserved(c);
    DigitsAre(c as nat / 16);
    DigitsAre(c as nat % 16);
  }

  function EachSpelled(s: bytes): seq<bytes> {
    seq(|s|, i requires 0 <= i < |s| => Spelled(s[i]))
  }

  lemma LastSpelled(s: bytes, n: nat)
    requires |s| == n + 1
    ensures EachSpelled(s) == EachSpelled(s[..n]) + [Spelled(s[n])]
  {
  }

  /**
   * The escaped text is that of its bytes one after another: each of the 66 listed stands for itself, a
   * blank is a plus sign, and any other byte a percent sign and its two upper-case digits.
   */
  lemma {:induction false} EscapeIsSpelled(s: bytes)
    ensures Escape(s) == Concat(EachSpelled(s))
    decreases |s|
  {
    if s != [] {
      var n := |s| - 1;
      EscapeIsSpelled(s[..n]);
      SpelledSo(s[n]);
      LastSpelled(s, n);
      ConcatAppend(EachSpelled(s[..n]), [Spelled(s[n])]);
      ConcatOne(Spelled(s[n]));
    }
  }

  /** Each byte is escaped by its digits. */
  predicate Fills(s: bytes) {
    forall i :: 0 <= i < |s| ==> !Listed(s[i]) && s[i] as char != ' '
  }

  lemma FillsOnly(s: bytes, n: nat)
    requires |s| == n + 1
    ensures Fills(s) <==> Fills(s[..n]) && !Listed(s[n]) && s[n] as char != ' '
  {
    assert forall i :: 0 <= i < n ==> s[..n][i] == s[i];
  }

  /** Three bytes for each are needed if and only if each is escaped by its digits. */
  lemma {:induction false} EscapeFillsIff(s: bytes)
    ensures |Escape(s)| == 3 * |s| <==> Fills(s)
    decreases |s|
  {
    if s != [] {
      var n := |s| - 1;
      EscapeFillsIff(s[..n]);
      EscapeFits(s[..n]);
      SpelledSo(s[n]);
      FillsOnly(s, n);
    }
  }

  // ---- decoding ----

  function HexValue(c: byte): Option<nat> {
    if IsDigit(c) then Some(c as nat - 48)
    else if 97 <= c <= 102 then Some(c as nat - 87)
    else if 65 <= c <= 70 then Some(c as nat - 55)
    else None
  }

  function Prefixed(c: byte, rest: Option<bytes>): Option<bytes> {
    if rest.Some? then Some([c] + rest.value) else None
  }

  /** As the repository's own test decodes; a percent sign without two digits after it fails. */
  function Decode(s: bytes): Option<bytes> {
    if s == [] then Some([])
    else if s[0] == PERCENT then
      if |s| < 3 || HexValue(s[1]).None? || HexValue(s[2]).None? then None
      else Prefixed((HexValue(s[1]).value * 16 + HexValue(s[2]).value) as byte, Decode(s[3..]))
    else Prefixed(if s[0] == PLUS then BLANK else s[0], Decode(s[1..]))
  }

  lemma DecodeOne(c: byte, rest: bytes)
    ensures Decode(EscapeByte(c) + rest) == Prefixed(c, Decode(rest))
  {
    var e := EscapeByte(c);
    assert (e + rest)[|e|..] == rest;
    assert forall i :: 0 <= i < |e| ==> (e + rest)[i] == e[i];
    assert c as nat == c as nat / 16 * 16 + c as nat % 16;
  }

  lemma LastAndRest(s: bytes, decoded: bytes)
    requires s != []
    ensures s + decoded == s[..|s| - 1] + ([s[|s| - 1]] + decoded)
  {
  }

  lemma {:induction false} DecodeEscapedThen(s: bytes, rest: bytes, decoded: bytes)
    requires Decode(rest) == Some(decoded)
    ensures Decode(Escape(s) + rest) == Some(s + decoded)
    decreases |s|
  {
    if s == [] {
      assert [] + rest == rest && [] + decoded == decoded;
    } else {
      var n := |s| - 1;
      DecodeOne(s[n], rest);
      DecodeEscapedThen(s[..n], EscapeByte(s[n]) + rest, [s[n]] + decoded);
      Assoc(Escape(s[..n]), EscapeByte(s[n]), rest);
      LastAndRest(s, decoded);
    }
  }

  /** Decoding what was escaped gives it back, whatever the bytes. */
  lemma DecodeEscape(s: bytes)
    ensures Decode(Escape(s)) == Some(s)
  {
    DecodeEscapedThen(s, [], []);
    assert Escape(s) + [] == Escape(s) && s + [] == s;
  }

  /** Three bytes for each are always enough, and nothing that separates fields or ends strings occurs. */
  lemma {:induction false} EscapeFits(s: bytes)
    ensures |s| <= |Escape(s)| <= 3 * |s|
    ensures forall i :: 0 <= i < |Escape(s)| ==>
      Escape(s)[i] != AMPERSAND && Escape(s)[i] != EQUALS && Escape(s)[i] != 0
    decreases |s|
  {
    if s != [] {
      EscapeFits(s[..|s| - 1]);
    }
  }

  // ---- as the source writes it ----

  method Put(a: array<byte>, p: nat, left: nat, c: byte) returns (next: nat, available: nat)
    requires 0 < left && p + left <= a.Length
    modifies a
    ensures next == p + 1 && available == left - 1
    ensures a[..next] == old(a[..p]) + [c]
  {
    a[p] := c;
    next, available := p + 1, left - 1;
  }

  method EscapeChar(c: byte, a: array<byte>, p: nat, left: nat) returns (next: nat, available: nat)
    requires |EscapeByte(c)| <= left && p + left <= a.Length
    modifies a
    ensures next == p + |EscapeByte(c)| && available == left - |EscapeByte(c)|
    ensures a[..next] == old(a[..p]) + EscapeByte(c)
  {
    if IsUnreserved(c) {
      next, available := Put(a, p, left, c);
    } else if c == BLANK {
      next, available := Put(a, p, left, PLUS);
    } else {
      next, available := Put(a, p, left, PERCENT);
      next, available := Put(a, next, available, HexDigit(HighNibble(c)));
      next, available := Put(a, next, available, HexDigit(LowNibble(c)));
    }
  }

  /** Writes the escaped text at p; what is left goes down by exactly what is written. */
  method UriEscape(raw: bytes, a: array<byte>, start: nat, left: nat) returns (p: nat, available: nat)
    requires |Escape(raw)| <= left && start + left <= a.Length
    modifies a
    ensures p == start + |Escape(raw)| && available == left - |Escape(raw)|
    ensures a[..p] == old(a[..start]) + Escape(raw)
  {
    p, available := start, left;
    for i := 0 to |raw|
      invariant p == start + |Escape(raw[..i])| && available == left - |Escape(raw[..i])| && available >= 0
      invariant a[..p] == old(a[..start]) + Escape(raw[..i])
    {
      assert raw[..i + 1][..i] == raw[..i];
      EscapeGrows(raw, i + 1);
      p, available := EscapeChar(raw[i], a, p, available);
      Assoc(old(a[..start]), Escape(raw[..i]), EscapeByte(raw[i]));
    }
    assert raw[..|raw|] == raw;
  }

  lemma {:induction false} EscapeGrows(s: bytes, i: nat)
    requires i <= |s|
    ensures |Escape(s[..i])| <= |Escape(s)|
    decreases |s|
  {
    if i < |s| {
      EscapeGrows(s[..|s| - 1], i);
      assert s[..|s| - 1][..i] == s[..i];
    } else {
      assert s[..i] == s;
    }
  }

  /** The public form: allocates for the worst case and ends the text. */
  method UriEscapeString(s: bytes) returns (escaped: array<byte>, n: nat)
    ensures fresh(escaped) && n < escaped.Length == 3 * |s| + 1
    ensures escaped[..n] == Escape(s) && escaped[n] == 0
  {
    EscapeFits(s);
    escaped := new byte[3 * |s| + 1];
    var left;
    n, left := UriEscape(s, escaped, 0, escaped.Length);
    escaped[n] := 0;
    assert [] + Escape(s) == Escape(s);
  }
}
