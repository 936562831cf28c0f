/**
 * `encodeURIComponent` and `decodeURIComponent` (ECMA-262, the Encode and
 * Decode abstract operations): every character outside the unreserved set
 * is written as the `%HH` escapes of its UTF-8 bytes, with upper-case hex
 * digits; decoding accepts either case and throws URIError on a malformed
 * escape or an invalid UTF-8 sequence.
 */
module Uri {
  import opened Wrappers
  import opened Seqs

  /** The characters `encodeURIComponent` leaves as they are. */
  predicate Unreserved(c: char) {
    ('A' <= c <= 'Z') || ('a' <= c <= 'z') || ('0' <= c <= '9')
    || c == '-' || c == '_' || c == '.' || c == '!' || c == '~'
    || c == '*' || c == '\'' || c == '(' || c == ')'
  }

  /** The alphabet of `encodeURIComponent`'s output. */
  predicate UriSafe(c: char) { Unreserved(c) || c == '%' }

  predicate AllUriSafe(s: string) {
    forall i :: 0 <= i < |s| ==> UriSafe(s[i])
  }

  predicate AllUnreserved(s: string) {
    forall i :: 0 <= i < |s| ==> Unreserved(s[i])
  }

  function HexDigit(n: nat): (c: char)
    requires n < 16
    ensures Unreserved(c)
  {
    "0123456789ABCDEF"[n]
  }

  function HexValue(c: char): Option<nat> {
    if '0' <= c <= '9' then Some(c as int - '0' as int)
    else if 'A' <= c <= 'F' then Some(c as int - 'A' as int + 10)
    else if 'a' <= c <= 'f' then Some(c as int - 'a' as int + 10)
    else None
  }

  lemma HexRoundTrip(n: nat)
    requires n < 16
    ensures HexValue(HexDigit(n)) == Some(n)
  {
  }

  predicate IsByte(b: nat) { b < 256 }

  /** The UTF-8 encoding of one Unicode scalar value. */
  function Utf8(c: char): (bytes: seq<nat>)
    ensures 1 <= |bytes| <= 4
    ensures forall i :: 0 <= i < |bytes| ==> IsByte(bytes[i])
  {
    var n := c as int;
    if n < 0x80 then [n]
    else if n < 0x800 then [0xC0 + n / 64, 0x80 + n % 64]
    else if n < 0x10000 then [0xE0 + n / 4096, 0x80 + (n / 64) % 64, 0x80 + n % 64]
    else [0xF0 + n / 262144, 0x80 + (n / 4096) % 64, 0x80 + (n / 64) % 64, 0x80 + n % 64]
  }

  /** `%HH` for one byte. */
  function EscapeByte(b: nat): (s: string)
    requires IsByte(b)
    ensures |s| == 3 && AllUriSafe(s)
  {
    ['%', HexDigit(b / 16), HexDigit(b % 16)]
  }

  function EscapeBytes(bytes: seq<nat>): (s: string)
    requires forall i :: 0 <= i < |bytes| ==> IsByte(bytes[i])
    ensures |s| == 3 * |bytes| && AllUriSafe(s)
  {
    if bytes == [] then "" else EscapeByte(bytes[0]) + EscapeBytes(bytes[1..])
  }

  function EncodeChar(c: char): (s: string)
    ensures |s| >= 1 && AllUriSafe(s)
  {
    if Unreserved(c) then [c] else EscapeBytes(Utf8(c))
  }

  /** `encodeURIComponent(s)`; its output is built from unreserved characters and `%`. */
  function Encode(s: string): (r: string)
    ensures AllUriSafe(r)
    ensures |r| >= |s|
  {
    if s == [] then "" else EncodeChar(s[0]) + Encode(s[1..])
  }

  /** The byte escaped as `%HH` at the start of `s`, if `s` starts with a well-formed escape. */
  function ByteAt(s: string): (r: Option<nat>)
    ensures r.Some? ==> IsByte(r.value) && |s| >= 3
  {
    if |s| >= 3 && s[0] == '%' && HexValue(s[1]).Some? && HexValue(s[2]).Some? then
      Some(HexValue(s[1]).value * 16 + HexValue(s[2]).value)
    else None
  }

  /** The 6-bit payloads of `k` continuation bytes (each `10xxxxxx`) escaped at the start of `s`. */
  function Payloads(s: string, k: nat): (r: Option<seq<int>>)
    ensures r.Some? ==> |r.value| == k && 3 * k <= |s|
    ensures r.Some? ==> forall i :: 0 <= i < k ==> 0 <= r.value[i] < 64
  {
    if k == 0 then Some([])
    else match ByteAt(s)
      case None => None
      case Some(b) =>
        if 0x80 <= b < 0xC0 then
          match Payloads(s[3..], k - 1)
          case None => None
          case Some(p) => Some([b - 0x80] + p)
        else None
  }

  /** Whether `n` is a Unicode scalar value, i.e. a Dafny `char`. */
  predicate IsScalar(n: int) { 0 <= n < 0xD800 || 0xE000 <= n < 0x110000 }

  /**
   * The character written by the escapes at the start of `s` (which starts with `%`)
   * and the number of text characters they take; `None` where Decode throws URIError.
   */
  function DecodeEscape(s: string): (r: Option<(char, nat)>)
    ensures r.Some? ==> 3 <= r.value.1 <= |s|
  {
    match ByteAt(s)
    case None => None
    case Some(b) =>
      if b < 0x80 then Some((b as char, 3))
      else
        var k := if 0xC0 <= b < 0xE0 then 1 else if 0xE0 <= b < 0xF0 then 2 else if 0xF0 <= b < 0xF8 then 3 else 0;
        if k == 0 then None
        else match Payloads(s[3..], k)
          case None => None
          case Some(p) =>
            var n :=
              if k == 1 then (b - 0xC0) * 64 + p[0]
              else if k == 2 then (b - 0xE0) * 4096 + p[0] * 64 + p[1]
              else (b - 0xF0) * 262144 + p[0] * 4096 + p[1] * 64 + p[2];
            var least := if k == 1 then 0x80 else if k == 2 then 0x800 else 0x10000;
            // overlong forms, surrogates and values past U+10FFFF are not valid UTF-8
            if least <= n && IsScalar(n) then Some((n as char, 3 + 3 * k)) else None
  }

  function Prepend(c: char, r: Option<string>): Option<string> {
    match r
    case None => None
    case Some(t) => Some([c] + t)
  }

  /** `decodeURIComponent(s)`; `None` where it throws URIError. */
  function Decode(s: string): Option<string>
    decreases |s|
  {
    if s == [] then Some("")
    else if s[0] != '%' then Prepend(s[0], Decode(s[1..]))
    else match DecodeEscape(s)
      case None => None
      case Some((c, len)) => Prepend(c, Decode(s[len..]))
  }

  lemma {:induction false} ByteAtEscape(b: nat, t: string)
    requires IsByte(b)
    ensures ByteAt(EscapeByte(b) + t) == Some(b)
  {
    HexRoundTrip(b / 16);
    HexRoundTrip(b % 16);
  }

  /** The 6-bit payloads of continuation bytes. */
  function Low6(bytes: seq<nat>): (p: seq<int>)
    ensures |p| == |bytes|
  {
    if bytes == [] then [] else [bytes[0] - 0x80] + Low6(bytes[1..])
  }

  lemma {:induction false} PayloadsOfContinuations(bytes: seq<nat>, t: string, s: string)
    requires forall i :: 0 <= i < |bytes| ==> 0x80 <= bytes[i] < 0xC0
    requires s == EscapeBytes(bytes) + t
    ensures Payloads(s, |bytes|) == Some(Low6(bytes))
  {
    if bytes != [] {
      EscapesHead(bytes, t);
      PayloadsOfContinuations(bytes[1..], t, s[3..]);
      PayloadsStep(s, |bytes|, bytes[0], Low6(bytes[1..]));
    }
  }

  /** The first of several escaped bytes, then the others. */
  lemma EscapesHead(bytes: seq<nat>, t: string)
    requires bytes != [] && forall i :: 0 <= i < |bytes| ==> 0x80 <= bytes[i] < 0xC0
    ensures ByteAt(EscapeBytes(bytes) + t) == Some(bytes[0])
    ensures (EscapeBytes(bytes) + t)[3..] == EscapeBytes(bytes[1..]) + t
  {
    var e0 := EscapeByte(bytes[0]);
    var e1 := EscapeBytes(bytes[1..]);
    assert EscapeBytes(bytes) == e0 + e1;
    Assoc(e0, e1, t);
    ByteAtEscape(bytes[0], e1 + t);
    assert (e0 + (e1 + t))[3..] == e1 + t;
  }

  /** One continuation byte, then the rest. */
  lemma PayloadsStep(s: string, k: nat, b: nat, p: seq<int>)
    requires k >= 1 && ByteAt(s) == Some(b) && 0x80 <= b < 0xC0
    requires Payloads(s[3..], k - 1) == Some(p)
    ensures Payloads(s, k) == Some([b - 0x80] + p)
  {
  }

  lemma Utf8Arithmetic3(n: int)
    requires 0x800 <= n < 0x10000
    ensures 0xE0 <= 0xE0 + n / 4096 < 0xF0
    ensures (n / 4096) * 4096 + ((n / 64) % 64) * 64 + n % 64 == n
  {
    var q := n / 64;
    assert q * 64 + n % 64 == n;
    assert (q / 64) * 64 + q % 64 == q;
    assert q / 64 == n / 4096;
  }

  lemma Utf8Arithmetic4(n: int)
    requires 0x10000 <= n < 0x110000
    ensures 0xF0 <= 0xF0 + n / 262144 < 0xF8
    ensures (n / 262144) * 262144 + ((n / 4096) % 64) * 4096 + ((n / 64) % 64) * 64 + n % 64 == n
  {
    var q := n / 64;
    var q2 := q / 64;
    assert q * 64 + n % 64 == n;
    assert q2 * 64 + q % 64 == q;
    assert q2 == n / 4096;
    assert (q2 / 64) * 64 + q2 % 64 == q2;
    assert q2 / 64 == n / 262144;
  }

  /** The escapes of a byte sequence start with the escape of its first byte, then its continuations. */
  lemma {:induction false} EscapesSplit(bytes: seq<nat>, t: string)
    requires |bytes| >= 1 && IsByte(bytes[0])
    requires forall i :: 1 <= i < |bytes| ==> 0x80 <= bytes[i] < 0xC0
    ensures ByteAt(EscapeBytes(bytes) + t) == Some(bytes[0])
    ensures Payloads((EscapeBytes(bytes) + t)[3..], |bytes| - 1) == Some(Low6(bytes[1..]))
  {
    var e0 := EscapeByte(bytes[0]);
    var e1 := EscapeBytes(bytes[1..]);
    assert EscapeBytes(bytes) == e0 + e1;
    Assoc(e0, e1, t);
    ByteAtEscape(bytes[0], e1 + t);
    assert (EscapeBytes(bytes) + t)[3..] == e1 + t;
    PayloadsOfContinuations(bytes[1..], t, e1 + t);
  }

  lemma DecodeOneByte(c: char, t: string)
    requires !Unreserved(c) && c as int < 0x80
    ensures DecodeEscape(EncodeChar(c) + t) == Some((c, |EncodeChar(c)|))
  {
    EscapesSplit(Utf8(c), t);
  }

  lemma DecodeTwoBytes(c: char, t: string)
    requires !Unreserved(c) && 0x80 <= c as int < 0x800
    ensures DecodeEscape(EncodeChar(c) + t) == Some((c, |EncodeChar(c)|))
  {
    var x0, x1 := Utf8Two(c);
    assert EncodeChar(c) == EscapeBytes([0xC0 + x0, 0x80 + x1]);
    TwoByteDecode(x0, x1, t, EncodeChar(c) + t);
  }

  lemma TwoByteDecode(x0: nat, x1: nat, t: string, s: string)
    requires 2 <= x0 < 32 && x1 < 64
    requires s == EscapeBytes([0xC0 + x0, 0x80 + x1]) + t
    ensures DecodeEscape(s) == Some(((x0 * 64 + x1) as char, 6))
  {
    TwoByteEscapes(0xC0 + x0, x1, t);
    DecodeTwoByteEscape(s, 0xC0 + x0, [x1], x0 * 64 + x1);
  }


  lemma TwoByteEscapes(b: nat, x1: nat, t: string)
    requires IsByte(b) && x1 < 64
    ensures var s := EscapeBytes([b, 0x80 + x1]) + t;
      ByteAt(s) == Some(b) && Payloads(s[3..], 1) == Some([x1])
  {
    var bytes := [b, 0x80 + x1];
    EscapesSplit(bytes, t);
    assert bytes[1..] == [0x80 + x1];
    assert Low6([0x80 + x1]) == [x1];
  }


  /** The two bytes UTF-8 writes for a character below U+0800. */
  lemma Utf8Two(c: char) returns (x0: nat, x1: nat)
    requires 0x80 <= c as int < 0x800
    ensures 2 <= x0 < 32 && x1 < 64 && x0 * 64 + x1 == c as int
    ensures Utf8(c) == [0xC0 + x0, 0x80 + x1]
  {
    x0, x1 := c as int / 64, c as int % 64;
  }

  lemma DecodeTwoByteEscape(s: string, b: nat, p: seq<int>, n: int)
    requires ByteAt(s) == Some(b) && 0xC0 <= b < 0xE0
    requires Payloads(s[3..], 1) == Some(p)
    requires n == (b - 0xC0) * 64 + p[0]
    requires 0x80 <= n < 0x800
    ensures DecodeEscape(s) == Some((n as char, 6))
  {
  }

  lemma DecodeThreeBytes(c: char, t: string)
    requires !Unreserved(c) && 0x800 <= c as int < 0x10000
    ensures DecodeEscape(EncodeChar(c) + t) == Some((c, |EncodeChar(c)|))
  {
    var x0, x1, x2 := Utf8Three(c);
    assert EncodeChar(c) == EscapeBytes([0xE0 + x0, 0x80 + x1, 0x80 + x2]);
    ThreeByteDecode(x0, x1, x2, t, EncodeChar(c) + t);
  }

  lemma ThreeByteDecode(x0: nat, x1: nat, x2: nat, t: string, s: string)
    requires x0 < 16 && x1 < 64 && x2 < 64
    requires 0x800 <= x0 * 4096 + x1 * 64 + x2 < 0x10000 && IsScalar(x0 * 4096 + x1 * 64 + x2)
    requires s == EscapeBytes([0xE0 + x0, 0x80 + x1, 0x80 + x2]) + t
    ensures DecodeEscape(s) == Some(((x0 * 4096 + x1 * 64 + x2) as char, 9))
  {
    ThreeByteEscapes(0xE0 + x0, x1, x2, t);
    DecodeThreeByteEscape(s, 0xE0 + x0, [x1, x2], x0 * 4096 + x1 * 64 + x2);
  }


  lemma ThreeByteEscapes(b: nat, x1: nat, x2: nat, t: string)
    requires IsByte(b) && x1 < 64 && x2 < 64
    ensures var s := EscapeBytes([b, 0x80 + x1, 0x80 + x2]) + t;
      ByteAt(s) == Some(b) && Payloads(s[3..], 2) == Some([x1, x2])
  {
    var bytes := [b, 0x80 + x1, 0x80 + x2];
    EscapesSplit(bytes, t);
    assert bytes[1..] == [0x80 + x1, 0x80 + x2];
    Low6Two(0x80 + x1, 0x80 + x2);
  }


  /** The three bytes UTF-8 writes for a character from U+0800 below U+10000. */
  lemma Utf8Three(c: char) returns (x0: nat, x1: nat, x2: nat)
    requires 0x800 <= c as int < 0x10000
    ensures x0 < 16 && x1 < 64 && x2 < 64 && x0 * 4096 + x1 * 64 + x2 == c as int
    ensures Utf8(c) == [0xE0 + x0, 0x80 + x1, 0x80 + x2]
  {
    var n := c as int;
    x0, x1, x2 := n / 4096, (n / 64) % 64, n % 64;
    Utf8Arithmetic3(n);
  }

  lemma Low6Two(a: nat, b: nat)
    ensures Low6([a, b]) == [a - 0x80, b - 0x80]
  {
    assert [a, b][1..] == [b];
    assert Low6([b]) == [b - 0x80];
  }

  lemma DecodeThreeByteEscape(s: string, b: nat, p: seq<int>, n: int)
    requires ByteAt(s) == Some(b) && 0xE0 <= b < 0xF0
    requires Payloads(s[3..], 2) == Some(p)
    requires n == (b - 0xE0) * 4096 + p[0] * 64 + p[1]
    requires 0x800 <= n < 0x10000 && IsScalar(n)
    ensures DecodeEscape(s) == Some((n as char, 9))
  {
  }

  lemma DecodeFourBytes(c: char, t: string)
    requires !Unreserved(c) && 0x10000 <= c as int
    ensures DecodeEscape(EncodeChar(c) + t) == Some((c, |EncodeChar(c)|))
  {
    var x0, x1, x2, x3 := Utf8Four(c);
    assert EncodeChar(c) == EscapeBytes([0xF0 + x0, 0x80 + x1, 0x80 + x2, 0x80 + x3]);
    FourByteDecode(x0, x1, x2, x3, t, EncodeChar(c) + t);
  }

  lemma FourByteDecode(x0: nat, x1: nat, x2: nat, x3: nat, t: string, s: string)
    requires x0 < 8 && x1 < 64 && x2 < 64 && x3 < 64
    requires 0x10000 <= x0 * 262144 + x1 * 4096 + x2 * 64 + x3 < 0x110000
    requires s == EscapeBytes([0xF0 + x0, 0x80 + x1, 0x80 + x2, 0x80 + x3]) + t
    ensures DecodeEscape(s) == Some(((x0 * 262144 + x1 * 4096 + x2 * 64 + x3) as char, 12))
  {
    FourByteEscapes(0xF0 + x0, x1, x2, x3, t);
    DecodeFourByteEscape(s, 0xF0 + x0, [x1, x2, x3], x0 * 262144 + x1 * 4096 + x2 * 64 + x3);
  }



  lemma FourByteEscapes(b: nat, x1: nat, x2: nat, x3: nat, t: string)
    requires IsByte(b) && x1 < 64 && x2 < 64 && x3 < 64
    ensures var s := EscapeBytes([b, 0x80 + x1, 0x80 + x2, 0x80 + x3]) + t;
      ByteAt(s) == Some(b) && Payloads(s[3..], 3) == Some([x1, x2, x3])
  {
    var bytes := [b, 0x80 + x1, 0x80 + x2, 0x80 + x3];
    EscapesSplit(bytes, t);
    assert bytes[1..] == [0x80 + x1, 0x80 + x2, 0x80 + x3];
    Low6Three(0x80 + x1, 0x80 + x2, 0x80 + x3);
  }


  /** The four bytes UTF-8 writes for a character from U+10000 on. */
  lemma Utf8Four(c: char) returns (x0: nat, x1: nat, x2: nat, x3: nat)
    requires 0x10000 <= c as int
    ensures x0 < 8 && x1 < 64 && x2 < 64 && x3 < 64
    ensures x0 * 262144 + x1 * 4096 + x2 * 64 + x3 == c as int
    ensures Utf8(c) == [0xF0 + x0, 0x80 + x1, 0x80 + x2, 0x80 + x3]
  {
    var n := c as int;
    x0, x1, x2, x3 := n / 262144, (n / 4096) % 64, (n / 64) % 64, n % 64;
    Utf8Arithmetic4(n);
  }

  lemma Low6Three(a: nat, b: nat, c: nat)
    ensures Low6([a, b, c]) == [a - 0x80, b - 0x80, c - 0x80]
  {
    assert [a, b, c][1..] == [b, c];
    assert [b, c][1..] == [c];
    assert Low6([c]) == [c - 0x80];
    assert Low6([b, c]) == [b - 0x80, c - 0x80];
  }

  lemma DecodeFourByteEscape(s: string, b: nat, p: seq<int>, n: int)
    requires ByteAt(s) == Some(b) && 0xF0 <= b < 0xF8
    requires Payloads(s[3..], 3) == Some(p)
    requires n == (b - 0xF0) * 262144 + p[0] * 4096 + p[1] * 64 + p[2]
    requires 0x10000 <= n < 0x110000
    ensures DecodeEscape(s) == Some((n as char, 12))
  {
  }

  /** Decoding the escapes of one encoded character gives back that character. */
  lemma DecodeEscapeOfChar(c: char, t: string)
    requires !Unreserved(c)
    ensures DecodeEscape(EncodeChar(c) + t) == Some((c, |EncodeChar(c)|))
  {
    var n := c as int;
    if n < 0x80 {
      DecodeOneByte(c, t);
    } else if n < 0x800 {
      DecodeTwoBytes(c, t);
    } else if n < 0x10000 {
      DecodeThreeBytes(c, t);
    } else {
      DecodeFourBytes(c, t);
    }
  }

  /** `decodeURIComponent(encodeURIComponent(s)) === s`: it never throws on encoded text. */
  lemma {:induction false} DecodeEncode(s: string)
    ensures Decode(Encode(s)) == Some(s)
  {
    if s != [] {
      var c := s[0];
      var t := Encode(s[1..]);
      DecodeEncode(s[1..]);
      assert Encode(s) == EncodeChar(c) + t;
      if Unreserved(c) {
        assert (EncodeChar(c) + t)[1..] == t;
      } else {
        DecodeEscapeOfChar(c, t);
        assert (EncodeChar(c) + t)[|EncodeChar(c)|..] == t;
      }
      assert [c] + s[1..] == s;
    }
  }

  /** Text made of unreserved characters is its own encoding. */
  lemma {:induction false} EncodeUnreserved(s: string)
    requires AllUnreserved(s)
    ensures Encode(s) == s
  {
    if s != [] {
      EncodeUnreserved(s[1..]);
      assert [s[0]] + s[1..] == s;
    }
  }

  /** The encoding of a non-empty text is non-empty (the falsy-key guard sees the same thing). */
  lemma EncodeEmpty(s: string)
    ensures Encode(s) == "" <==> s == ""
  {
  }

  /** Text made of unreserved characters decodes to itself. */
  lemma DecodeUnreserved(s: string)
    requires AllUnreserved(s)
    ensures Decode(s) == Some(s)
  {
    EncodeUnreserved(s);
    DecodeEncode(s);
  }

  /** Text with a character outside the unreserved set is never its own encoding. */
  lemma EncodeChanges(s: string)
    requires !AllUnreserved(s)
    ensures Encode(s) != s
  {
    var i :| 0 <= i < |s| && !Unreserved(s[i]);
    if s[i] == '%' {
      EncodeLonger(s);
    } else {
      assert !UriSafe(s[i]);
    }
  }

  /** A string with a `%` is never its own encoding: the `%` itself is escaped. */
  lemma {:induction false} EncodeLonger(s: string)
    requires '%' in s
    ensures |Encode(s)| > |s|
  {
    if s[0] == '%' {
      assert |EncodeChar(s[0])| == 3;
    } else {
      EncodeLonger(s[1..]);
    }
  }
}
