/**
 * decodeURIComponent, the host function the font scan calls on every listed
 * file name, and its inverse encodeURIComponent. Both follow the Encode and
 * Decode operations of the ECMAScript language specification (section 19.2.6):
 * a `%XY` escape stands for one octet, octets of 0x80 and above must form a
 * well-formed UTF-8 sequence (RFC 3629), and anything else raises a URIError.
 */
module Uri {
  import opened Wrappers

  /** The two reasons decodeURIComponent raises a URIError. */
  datatype URIError = MalformedEscape | InvalidUtf8

  type Octet = b: nat | b < 256

  predicate IsHexDigit(c: char)
  {
    '0' <= c <= '9' || 'a' <= c <= 'f' || 'A' <= c <= 'F'
  }

  function HexValue(c: char): (v: nat)
    requires IsHexDigit(c)
    ensures v < 16
  {
    if '0' <= c <= '9' then c as int - '0' as int
    else if 'a' <= c <= 'f' then c as int - 'a' as int + 10
    else c as int - 'A' as int + 10
  }

  /** Upper-case hexadecimal digit, as encodeURIComponent writes it. */
  function HexDigit(d: nat): (c: char)
    requires d < 16
    ensures IsHexDigit(c) && HexValue(c) == d
  {
    if d < 10 then ('0' as int + d) as char else ('A' as int + d - 10) as char
  }

  /** The octet written as `%XY` at index i of s, if an escape is there. */
  function EscapedOctet(s: string, i: nat): (r: Option<Octet>)
    ensures r.Some? <==> i + 2 < |s| && s[i] == '%' && IsHexDigit(s[i + 1]) && IsHexDigit(s[i + 2])
  {
    if i + 2 < |s| && s[i] == '%' && IsHexDigit(s[i + 1]) && IsHexDigit(s[i + 2]) then
      Some(16 * HexValue(s[i + 1]) + HexValue(s[i + 2]))
    else
      None
  }

  /** The number of leading one bits of an octet. */
  function LeadingOnes(b: Octet): (n: nat)
    ensures n <= 8
  {
    if b < 0x80 then 0
    else if b < 0xC0 then 1
    else if b < 0xE0 then 2
    else if b < 0xF0 then 3
    else if b < 0xF8 then 4
    else if b < 0xFC then 5
    else if b < 0xFE then 6
    else if b < 0xFF then 7
    else 8
  }

  /** The code point bits carried by the lead octet of an n-octet sequence. */
  function LeadPayload(b: Octet, n: nat): nat
    requires 2 <= n <= 4
  {
    if n == 2 then b % 32 else if n == 3 then b % 16 else b % 8
  }

  predicate IsContinuation(b: Octet)
  {
    0x80 <= b < 0xC0
  }

  /**
   * The `count` continuation octets escaped from index i on; each must be a
   * `%XY` escape and of the form 10xxxxxx.
   */
  function Continuations(s: string, i: nat, count: nat): (r: Result<seq<Octet>, URIError>)
    ensures r.Success? ==> |r.value| == count
    ensures r.Success? ==> forall j | 0 <= j < count :: IsContinuation(r.value[j])
    decreases count
  {
    if count == 0 then Success([])
    else match EscapedOctet(s, i)
      case None => Failure(MalformedEscape)
      case Some(b) =>
        if !IsContinuation(b) then Failure(InvalidUtf8)
        else match Continuations(s, i + 3, count - 1)
          case Failure(e) => Failure(e)
          case Success(rest) => Success([b] + rest)
  }

  /** Appends the six payload bits of each continuation octet to acc. */
  function CodePoint(acc: nat, continuations: seq<Octet>): nat
    decreases |continuations|
  {
    if continuations == [] then acc
    else CodePoint(64 * acc + continuations[0] % 64, continuations[1..])
  }

  /** The smallest code point an n-octet sequence may encode (no overlong forms). */
  function MinCodePoint(n: nat): nat
  {
    if n <= 1 then 0 else if n == 2 then 0x80 else if n == 3 then 0x800 else 0x10000
  }

  /** A UTF-8 sequence of n octets is well formed when it encodes a Unicode scalar value without an overlong form. */
  predicate IsWellFormed(n: nat, cp: nat)
  {
    MinCodePoint(n) <= cp <= 0x10FFFF && !(0xD800 <= cp <= 0xDFFF)
  }

  function Prepend(c: char, r: Result<string, URIError>): (r': Result<string, URIError>)
    ensures r'.Success? <==> r.Success?
    ensures r'.Success? ==> r'.value == [c] + r.value
    ensures r'.Failure? ==> r'.error == r.error
  {
    match r
    case Success(t) => Success([c] + t)
    case Failure(e) => Failure(e)
  }

  /** decodeURIComponent: every escape is decoded (the reserved set is empty). */
  function Decode(s: string): (r: Result<string, URIError>)
    decreases |s|
  {
    if s == [] then Success([])
    else if s[0] != '%' then Prepend(s[0], Decode(s[1..]))
    else match EscapedOctet(s, 0)
      case None => Failure(MalformedEscape)
      case Some(b) =>
        if b < 0x80 then Prepend(b as char, Decode(s[3..]))
        else
          var n := LeadingOnes(b);
          if n == 1 || n > 4 then Failure(InvalidUtf8)
          else if |s| < 3 * n then Failure(MalformedEscape)
          else match Continuations(s, 3, n - 1)
            case Failure(e) => Failure(e)
            case Success(tail) =>
              var cp := CodePoint(LeadPayload(b, n), tail);
              if IsWellFormed(n, cp) then Prepend(cp as char, Decode(s[3 * n..]))
              else Failure(InvalidUtf8)
  }

  // ---------------------------------------------------------------------
  // encodeURIComponent

  /** The characters encodeURIComponent leaves as they are. */
  predicate IsUnreserved(c: char)
  {
    'A' <= c <= 'Z' || 'a' <= c <= 'z' || '0' <= c <= '9' ||
    c == '-' || c == '_' || c == '.' || c == '!' || c == '~' || c == '*' || c == '\'' || c == '(' || c == ')'
  }

  /** The UTF-8 encoding of a code point (RFC 3629, section 3). */
  function Utf8(cp: nat): (bs: seq<Octet>)
    requires cp <= 0x10FFFF
    ensures 1 <= |bs| <= 4
  {
    if cp < 0x80 then [cp]
    else if cp < 0x800 then [0xC0 + cp / 64, 0x80 + cp % 64]
    else if cp < 0x10000 then [0xE0 + cp / 4096, 0x80 + cp / 64 % 64, 0x80 + cp % 64]
    else [0xF0 + cp / 262144, 0x80 + cp / 4096 % 64, 0x80 + cp / 64 % 64, 0x80 + cp % 64]
  }

  function EscapeOctets(bs: seq<Octet>): (s: string)
    ensures |s| == 3 * |bs|
  {
    if bs == [] then [] else ['%', HexDigit(bs[0] / 16), HexDigit(bs[0] % 16)] + EscapeOctets(bs[1..])
  }

  function EncodeChar(c: char): string
  {
    if IsUnreserved(c) then [c] else EscapeOctets(Utf8(c as int))
  }

  /** encodeURIComponent. */
  function Encode(s: string): string
  {
    if s == [] then [] else EncodeChar(s[0]) + Encode(s[1..])
  }

  // ---------------------------------------------------------------------
  // Properties

  /** A name without `%` decodes to itself. */
  lemma {:induction false} DecodeWithoutEscapes(s: string)
    requires '%' !in s
    ensures Decode(s) == Success(s)
    decreases |s|
  {
    if s != [] {
      assert '%' !in s[1..];
      DecodeWithoutEscapes(s[1..]);
      assert [s[0]] + s[1..] == s;
    }
  }

  /** Decoding never lengthens a string. */
  lemma {:induction false} DecodeNeverLonger(s: string)
    ensures Decode(s).Success? ==> |Decode(s).value| <= |s|
    decreases |s|
  {
    if s != [] && Decode(s).Success? {
      if s[0] != '%' {
        DecodeNeverLonger(s[1..]);
      } else {
        var b := EscapedOctet(s, 0).value;
        if b < 0x80 {
          DecodeNeverLonger(s[3..]);
        } else {
          DecodeNeverLonger(s[3 * LeadingOnes(b)..]);
        }
      }
    }
  }

  /** An escape `%XY` spelled with HexDigit reads back as its octet. */
  lemma EscapeReadsBack(s: string, j: nat, b: Octet)
    requires j + 2 < |s| && s[j] == '%' && s[j + 1] == HexDigit(b / 16) && s[j + 2] == HexDigit(b % 16)
    ensures EscapedOctet(s, j) == Some(b)
  {
    assert 16 * (b / 16) + b % 16 == b;
  }

  /** The i-th escape of an escaped octet string sits at 3 * i. */
  lemma {:induction false} EscapeSpelledAt(bs: seq<Octet>, rest: string, i: nat)
    requires i < |bs|
    ensures var s := EscapeOctets(bs) + rest;
      3 * i + 2 < |s| && s[3 * i] == '%'
      && s[3 * i + 1] == HexDigit(bs[i] / 16) && s[3 * i + 2] == HexDigit(bs[i] % 16)
    decreases i
  {
    var tail := EscapeOctets(bs[1..]) + rest;
    var head := ['%', HexDigit(bs[0] / 16), HexDigit(bs[0] % 16)];
    assert EscapeOctets(bs) + rest == head + tail;
    if i > 0 {
      EscapeSpelledAt(bs[1..], rest, i - 1);
      assert bs[1..][i - 1] == bs[i];
    }
  }

  /** The i-th escape of an escaped octet string reads back as the i-th octet. */
  lemma EscapedOctetAt(bs: seq<Octet>, rest: string, i: nat)
    requires i < |bs|
    ensures EscapedOctet(EscapeOctets(bs) + rest, 3 * i) == Some(bs[i])
  {
    EscapeSpelledAt(bs, rest, i);
    EscapeReadsBack(EscapeOctets(bs) + rest, 3 * i, bs[i]);
  }

  lemma {:induction false} ContinuationsOfEscaped(bs: seq<Octet>, rest: string, i: nat)
    requires 1 <= i <= |bs|
    requires forall j | i <= j < |bs| :: IsContinuation(bs[j])
    ensures Continuations(EscapeOctets(bs) + rest, 3 * i, |bs| - i) == Success(bs[i..])
    decreases |bs| - i
  {
    if i < |bs| {
      EscapedOctetAt(bs, rest, i);
      ContinuationsOfEscaped(bs, rest, i + 1);
      assert bs[i..] == [bs[i]] + bs[i + 1..];
    }
  }

  lemma EscapedPrefixDropped(bs: seq<Octet>, rest: string)
    ensures (EscapeOctets(bs) + rest)[3 * |bs|..] == rest
  {
  }

  /** Decoding an escaped, well-formed multi-octet sequence yields its code point. */
  lemma DecodeEscapedSequence(bs: seq<Octet>, rest: string, cp: nat)
    requires 2 <= |bs| <= 4 && LeadingOnes(bs[0]) == |bs|
    requires forall j | 1 <= j < |bs| :: IsContinuation(bs[j])
    requires cp == CodePoint(LeadPayload(bs[0], |bs|), bs[1..]) && IsWellFormed(|bs|, cp)
    ensures Decode(EscapeOctets(bs) + rest) == Prepend(cp as char, Decode(rest))
  {
    var s := EscapeOctets(bs) + rest;
    EscapedOctetAt(bs, rest, 0);
    EscapedPrefixDropped(bs, rest);
    ContinuationsOfEscaped(bs, rest, 1);
    assert s[0] == '%';
  }

  lemma CodePointOfOne(acc: nat, a: Octet)
    ensures CodePoint(acc, [a]) == 64 * acc + a % 64
  {
    assert [a][1..] == [];
  }

  lemma CodePointOfTwo(acc: nat, a: Octet, b: Octet)
    ensures CodePoint(acc, [a, b]) == 64 * (64 * acc + a % 64) + b % 64
  {
    assert [a, b][1..] == [b];
    CodePointOfOne(64 * acc + a % 64, b);
  }

  lemma CodePointOfThree(acc: nat, a: Octet, b: Octet, c: Octet)
    ensures CodePoint(acc, [a, b, c]) == 64 * (64 * (64 * acc + a % 64) + b % 64) + c % 64
  {
    assert [a, b, c][1..] == [b, c];
    CodePointOfTwo(64 * acc + a % 64, b, c);
  }

  lemma Utf8Shape2(cp: nat)
    requires 0x80 <= cp < 0x800
    ensures var bs := Utf8(cp);
      && |bs| == 2 && LeadingOnes(bs[0]) == 2 && IsContinuation(bs[1])
      && CodePoint(LeadPayload(bs[0], 2), bs[1..]) == cp
  {
    var bs := Utf8(cp);
    assert bs[1..] == [bs[1]];
    CodePointOfOne(LeadPayload(bs[0], 2), bs[1]);
  }

  lemma Utf8Shape3(cp: nat)
    requires 0x800 <= cp < 0x10000
    ensures var bs := Utf8(cp);
      && |bs| == 3 && LeadingOnes(bs[0]) == 3 && IsContinuation(bs[1]) && IsContinuation(bs[2])
      && CodePoint(LeadPayload(bs[0], 3), bs[1..]) == cp
  {
    var bs := Utf8(cp);
    assert bs[1..] == [bs[1], bs[2]];
    CodePointOfTwo(LeadPayload(bs[0], 3), bs[1], bs[2]);
    assert LeadPayload(bs[0], 3) == cp / 4096;
    assert 64 * (cp / 4096) + cp / 64 % 64 == cp / 64;
  }

  lemma DivideBy64Twice(x: nat)
    ensures x / 4096 == x / 64 / 64
    ensures x / 262144 == x / 4096 / 64
  {
  }

  /** A continuation octet 0x80 + x % 64 carries the low six bits of x. */
  lemma SixBits(x: nat)
    ensures IsContinuation(0x80 + x % 64) && (0x80 + x % 64) % 64 == x % 64
    ensures 64 * (x / 64) + x % 64 == x
  {
  }

  lemma Utf8Shape4(cp: nat)
    requires 0x10000 <= cp <= 0x10FFFF
    ensures var bs := Utf8(cp);
      && |bs| == 4 && LeadingOnes(bs[0]) == 4
      && IsContinuation(bs[1]) && IsContinuation(bs[2]) && IsContinuation(bs[3])
      && CodePoint(LeadPayload(bs[0], 4), bs[1..]) == cp
  {
    var q1 := cp / 64;
    var q2 := q1 / 64;
    var q3 := q2 / 64;
    DivideBy64Twice(cp);
    assert q3 <= 4;
    var bs := Utf8(cp);
    assert bs == [0xF0 + q3, 0x80 + q2 % 64, 0x80 + q1 % 64, 0x80 + cp % 64];
    SixBits(cp);
    SixBits(q1);
    SixBits(q2);
    assert LeadPayload(bs[0], 4) == q3;
    assert bs[1..] == [bs[1], bs[2], bs[3]];
    CodePointOfThree(q3, bs[1], bs[2], bs[3]);
  }

  /** Decoding the escapes of one encoded character yields that character. */
  lemma DecodeEncodedChar(c: char, rest: string)
    ensures Decode(EncodeChar(c) + rest) == Prepend(c, Decode(rest))
  {
    var s := EncodeChar(c) + rest;
    if IsUnreserved(c) {
      assert s[1..] == rest;
    } else {
      var cp := c as int;
      var bs := Utf8(cp);
      if cp < 0x80 {
        EscapedOctetAt(bs, rest, 0);
        EscapedPrefixDropped(bs, rest);
        assert s[0] == '%';
        assert (cp as char) == c;
      } else {
        if cp < 0x800 {
          Utf8Shape2(cp);
        } else if cp < 0x10000 {
          Utf8Shape3(cp);
        } else {
          Utf8Shape4(cp);
        }
        DecodeEscapedSequence(bs, rest, cp);
        assert (cp as char) == c;
      }
    }
  }

  /** decodeURIComponent undoes encodeURIComponent. */
  lemma {:induction false} DecodeEncode(s: string)
    ensures Decode(Encode(s)) == Success(s)
    decreases |s|
  {
    if s != [] {
      DecodeEncodedChar(s[0], Encode(s[1..]));
      DecodeEncode(s[1..]);
      assert [s[0]] + s[1..] == s;
    }
  }

  /** An escaped slash decodes to a real one; a lone `%` is malformed. */
  lemma DecodeExamples()
    ensures Decode("%2F") == Success("/")
    ensures Decode("%") == Failure(MalformedEscape)
    ensures Decode("%C0%AF") == Failure(InvalidUtf8)
  {
    var slash := "%2F";
    assert HexValue(slash[1]) == 2 && HexValue(slash[2]) == 15;
    assert EscapedOctet(slash, 0) == Some(0x2F);
    assert slash[3..] == [];
    assert Decode(slash) == Prepend(0x2F as char, Decode([]));
    assert (0x2F as char) == '/';
    assert ['/'] + [] == "/";
    var overlong := "%C0%AF";
    assert HexValue(overlong[1]) == 12 && HexValue(overlong[2]) == 0;
    assert HexValue(overlong[4]) == 10 && HexValue(overlong[5]) == 15;
    assert EscapedOctet(overlong, 0) == Some(0xC0);
    assert EscapedOctet(overlong, 3) == Some(0xAF);
    var tail: seq<Octet> := [0xAF];
    assert IsContinuation(0xAF);
    assert Continuations(overlong, 6, 0) == Success([]);
    assert IsContinuation(EscapedOctet(overlong, 3).value);
    assert Continuations(overlong, 3, 1) == Success([EscapedOctet(overlong, 3).value] + []);
    assert [EscapedOctet(overlong, 3).value] + [] == tail;
    assert Continuations(overlong, 3, 1) == Success(tail);
    assert CodePoint(LeadPayload(0xC0, 2), tail) == 0x2F;
  }
}
