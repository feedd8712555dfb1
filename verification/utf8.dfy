/**
 * UTF-8 encoding of one code point (src/utf8/native.js), following section 3
 * of RFC 3629, and the string-to-bytes driver built on it.
 *
 * The bit operations of `utf8_encode_char` act on non-negative values below
 * 0x110000: `x >> k` is `x / 2^k`, `x & m` for `m = 2^j - 1` is `x % 2^j`,
 * and `| 0xC0` (and friends) adds a tag to a value whose tag bits are clear.
 */
module Utf8 {
  import opened Js
  import CodePoint

  /** Number of bytes RFC 3629 assigns to a code point. */
  function Width(cp: int): nat
  {
    if cp < 0x80 then 1 else if cp < 0x800 then 2 else if cp < 0x10000 then 3 else 4
  }

  /** `10xxxxxx` */
  predicate IsContinuation(b: int)
  {
    0x80 <= b < 0xC0
  }

  /** The lead byte of an `n`-byte sequence: `0xxxxxxx`, `110xxxxx`,
      `1110xxxx` or `11110xxx`. */
  predicate IsLead(b: int, n: nat)
  {
    match n
    case 1 => 0 <= b < 0x80
    case 2 => 0xC0 <= b < 0xE0
    case 3 => 0xE0 <= b < 0xF0
    case 4 => 0xF0 <= b < 0xF8
    case _ => false
  }

  /** A lead byte for `|bytes|` bytes followed by continuation bytes. */
  predicate WellFormed(bytes: seq<int>)
  {
    |bytes| > 0 && IsLead(bytes[0], |bytes|) && forall k | 1 <= k < |bytes| :: IsContinuation(bytes[k])
  }

  /** `utf8_encode_char(codePoint, out)`: appends the encoding of the code
      point to `out`, or throws a `RangeError` outside [0, 0x10FFFF]. Code
      points of lone surrogates are encoded like any other. */
  function EncodeChar(cp: int, out: seq<int>): (r: Result<seq<int>>)
    ensures r.Err? <==> cp < 0 || cp >= 0x110000
    ensures r.Err? ==> r.error == IllegalCodePoint
    ensures r.Ok? ==> |r.value| == |out| + Width(cp) && r.value[..|out|] == out
    ensures r.Ok? ==> WellFormed(r.value[|out|..]) && AllBytes(r.value[|out|..])
  {
    if cp < 0 then Err(IllegalCodePoint)
    else if cp < 0x80 then
      Ok(out + [cp % 0x80])                                    // codePoint & 0x7F
    else if cp < 0x800 then
      Ok(out + [cp / 64 % 32 + 0xC0,                           // ((cp >> 6) & 0x1F) | 0xC0
                cp % 64 + 0x80])                               // (cp & 0x3F) | 0x80
    else if cp < 0x10000 then
      Ok(out + [cp / 4096 % 16 + 0xE0,                         // ((cp >> 12) & 0x0F) | 0xE0
                cp / 64 % 64 + 0x80,                           // ((cp >> 6) & 0x3F) | 0x80
                cp % 64 + 0x80])
    else if cp < 0x110000 then
      Ok(out + [cp / 262144 % 8 + 0xF0,                        // ((cp >> 18) & 0x07) | 0xF0
                cp / 4096 % 64 + 0x80,                         // ((cp >> 12) & 0x3F) | 0x80
                cp / 64 % 64 + 0x80,                           // ((cp >> 6) & 0x3F) | 0x80
                cp % 64 + 0x80])
    else Err(IllegalCodePoint)
  }

  /** The bytes `EncodeChar` appends. */
  function Encoded(cp: int): (r: seq<int>)
    requires 0 <= cp < 0x110000
    ensures |r| == Width(cp) && WellFormed(r) && AllBytes(r)
  {
    var r := EncodeChar(cp, []).value;
    assert r[0..] == r;
    r
  }

  /** Reading one character back: the lead byte gives the length, each byte
      contributes its payload bits. This is the reference decoder the
      encoder is checked against; it does not reject overlong forms or
      surrogates. */
  function DecodeChar(bytes: seq<int>): Option<(int, nat)>
  {
    if |bytes| == 0 then None
    else
      var b := bytes[0];
      var n := if IsLead(b, 1) then 1 else if IsLead(b, 2) then 2 else if IsLead(b, 3) then 3
               else if IsLead(b, 4) then 4 else 0;
      if n == 0 || |bytes| < n || !WellFormed(bytes[..n]) then None
      else if n == 1 then Some((b, 1))
      else if n == 2 then Some(((b - 0xC0) * 64 + (bytes[1] - 0x80), 2))
      else if n == 3 then Some(((b - 0xE0) * 4096 + (bytes[1] - 0x80) * 64 + (bytes[2] - 0x80), 3))
      else Some(((b - 0xF0) * 262144 + (bytes[1] - 0x80) * 4096 + (bytes[2] - 0x80) * 64 + (bytes[3] - 0x80), 4))
  }

  /** The appended bytes decode back to the code point and nothing more is
      read: the encoding round-trips. */
  lemma DecodeEncoded(cp: int, rest: seq<int>)
    requires 0 <= cp < 0x110000
    ensures DecodeChar(Encoded(cp) + rest) == Some((cp, Width(cp)))
  {
    var e := Encoded(cp);
    var t := e + rest;
    assert t[..|e|] == e;
    if cp < 0x80 {
      assert e == [cp];
    } else if cp < 0x800 {
      DecodeEncoded2(cp, t);
    } else if cp < 0x10000 {
      DecodeEncoded3(cp, t);
    } else {
      DecodeEncoded4(cp, t);
    }
  }

  lemma DecodeEncoded2(cp: int, t: seq<int>)
    requires 0x80 <= cp < 0x800
    requires |t| >= 2 && t[..2] == Encoded(cp)
    ensures DecodeChar(t) == Some((cp, 2))
  {
    assert t[0] == cp / 64 % 32 + 0xC0 && t[1] == cp % 64 + 0x80;
    assert cp / 64 < 32;
  }

  lemma DecodeEncoded3(cp: int, t: seq<int>)
    requires 0x800 <= cp < 0x10000
    requires |t| >= 3 && t[..3] == Encoded(cp)
    ensures DecodeChar(t) == Some((cp, 3))
  {
    assert t[0] == cp / 4096 % 16 + 0xE0 && t[1] == cp / 64 % 64 + 0x80 && t[2] == cp % 64 + 0x80;
    var a, b, c := cp / 4096, cp / 64 % 64, cp % 64;
    assert cp / 64 == a * 64 + b by {
      assert cp / 64 / 64 == a;
    }
    assert a < 16;
  }

  lemma DecodeEncoded4(cp: int, t: seq<int>)
    requires 0x10000 <= cp < 0x110000
    requires |t| >= 4 && t[..4] == Encoded(cp)
    ensures DecodeChar(t) == Some((cp, 4))
  {
    assert t[0] == cp / 262144 % 8 + 0xF0 && t[1] == cp / 4096 % 64 + 0x80
           && t[2] == cp / 64 % 64 + 0x80 && t[3] == cp % 64 + 0x80;
    Digits4(cp);
    DecodeLead4(t);
  }

  /** A four-byte sequence carries 3 + 6 + 6 + 6 payload bits. */
  lemma DecodeLead4(t: seq<int>)
    requires |t| >= 4 && IsLead(t[0], 4)
    requires IsContinuation(t[1]) && IsContinuation(t[2]) && IsContinuation(t[3])
    ensures DecodeChar(t) == Some(((t[0] - 0xF0) * 262144 + (t[1] - 0x80) * 4096 + (t[2] - 0x80) * 64 + (t[3] - 0x80), 4))
  {
    assert WellFormed(t[..4]);
  }

  /** The four 3- and 6-bit fields of a supplementary code point put
      back together. */
  lemma Digits4(cp: int)
    requires 0x10000 <= cp < 0x110000
    ensures cp / 262144 < 8
    ensures (cp / 262144 % 8) * 262144 + (cp / 4096 % 64) * 4096 + (cp / 64 % 64) * 64 + cp % 64 == cp
  {
    var a, b, c := cp / 262144, cp / 4096 % 64, cp / 64 % 64;
    assert cp / 64 == cp / 4096 * 64 + c by {
      assert cp / 64 / 64 == cp / 4096;
    }
    assert cp / 4096 == a * 64 + b by {
      assert cp / 4096 / 64 == a;
    }
  }

  /** Distinct code points have distinct encodings. */
  lemma EncodeCharInjective(a: int, b: int, out: seq<int>)
    requires EncodeChar(a, out).Ok? && EncodeChar(b, out).Ok?
    requires EncodeChar(a, out) == EncodeChar(b, out)
    ensures a == b
  {
    var ea := EncodeChar(a, out).value;
    assert ea[|out|..] == Encoded(a) && ea[|out|..] == Encoded(b);
    DecodeEncoded(a, []);
    DecodeEncoded(b, []);
    assert Encoded(a) + [] == Encoded(a) && Encoded(b) + [] == Encoded(b);
  }

  /** Whatever `codePointAt` returns can be encoded: the driver never throws. */
  lemma CodePointEncodes(s: JsString, p: CodePoint.Position, out: seq<int>)
    requires CodePoint.CodePointAt(s, p).Some?
    ensures EncodeChar(CodePoint.CodePointAt(s, p).value, out).Ok?
  {
  }

  /** The string-to-bytes driver `utf8Array` from index `i` on: it walks the
      string with `codePointAt`, skipping the second half of a pair, and
      appends each code point's encoding. */
  function Utf8ArrayFrom(s: JsString, i: nat): (r: seq<int>)
    ensures AllBytes(r)
    decreases |s| - i
  {
    if i >= |s| then []
    else
      var cp := CodePointAt(s, i);
      Encoded(cp) + Utf8ArrayFrom(s, i + (if cp >= 0x10000 then 2 else 1))
  }

  /** The code point at index `i < |s|`; always defined there. */
  function CodePointAt(s: JsString, i: nat): (cp: int)
    requires i < |s|
    ensures 0 <= cp <= 0x10FFFF
  {
    CodePoint.CodePointAt(s, CodePoint.At(i)).value
  }

  /** `utf8Array(s)`: the UTF-8 bytes of a JavaScript string. */
  function Utf8Array(s: JsString): seq<int>
  {
    Utf8ArrayFrom(s, 0)
  }

  /** The code points the driver visits from index `i` on. */
  function CodePointsFrom(s: JsString, i: nat): (r: seq<int>)
    ensures forall k | 0 <= k < |r| :: 0 <= r[k] <= 0x10FFFF
    decreases |s| - i
  {
    if i >= |s| then []
    else
      var cp := CodePointAt(s, i);
      [cp] + CodePointsFrom(s, i + (if cp >= 0x10000 then 2 else 1))
  }

  /** Decodes a whole byte string with `DecodeChar`, stopping at the first
      malformed character. */
  function DecodeAll(bytes: seq<int>): seq<int>
    decreases |bytes|
  {
    match DecodeChar(bytes)
    case None => []
    case Some((cp, n)) => if 0 < n <= |bytes| then [cp] + DecodeAll(bytes[n..]) else []
  }

  /** Decoding an encoded character followed by more bytes. */
  lemma DecodeAllEncoded(cp: int, rest: seq<int>)
    requires 0 <= cp < 0x110000
    ensures DecodeAll(Encoded(cp) + rest) == [cp] + DecodeAll(rest)
  {
    DecodeEncoded(cp, rest);
    assert (Encoded(cp) + rest)[Width(cp)..] == rest;
  }

  /** The driver loses nothing: decoding its output yields exactly the code
      points it visited. */
  lemma {:induction false} DecodeUtf8ArrayFrom(s: JsString, i: nat)
    ensures DecodeAll(Utf8ArrayFrom(s, i)) == CodePointsFrom(s, i)
    decreases |s| - i
  {
    if i < |s| {
      var cp := CodePointAt(s, i);
      var next := i + (if cp >= 0x10000 then 2 else 1);
      var rest := Utf8ArrayFrom(s, next);
      assert Utf8ArrayFrom(s, i) == Encoded(cp) + rest;
      assert CodePointsFrom(s, i) == [cp] + CodePointsFrom(s, next);
      DecodeAllEncoded(cp, rest);
      DecodeUtf8ArrayFrom(s, next);
    }
  }

  lemma DecodeUtf8Array(s: JsString)
    ensures DecodeAll(Utf8Array(s)) == CodePointsFrom(s, 0)
  {
    DecodeUtf8ArrayFrom(s, 0);
  }

  /** The UTF-16 forms of a sequence of code points, one after another. */
  function Utf16All(cps: seq<int>): JsString
    requires forall k | 0 <= k < |cps| :: 0 <= cps[k] <= 0x10FFFF
    decreases |cps|
  {
    if |cps| == 0 then [] else CodePoint.Utf16(cps[0]) + Utf16All(cps[1..])
  }

  /** The walk of the driver covers the string: writing the code points it
      visits back as UTF-16 gives the code units from `i` on, so no code
      unit is skipped and none is read twice. */
  lemma {:induction false} WalkCovers(s: JsString, i: nat)
    requires i <= |s|
    ensures Utf16All(CodePointsFrom(s, i)) == s[i..]
    decreases |s| - i
  {
    if i < |s| {
      var cp := CodePointAt(s, i);
      var next := i + (if cp >= 0x10000 then 2 else 1);
      assert CodePointsFrom(s, i) == [cp] + CodePointsFrom(s, next);
      if CodePoint.PairAt(s, i) {
        CodePoint.PairIsUtf16(s, i);
        assert CodePoint.Utf16(cp) == s[i..next];
      } else {
        assert CodePoint.Utf16(cp) == s[i..next];
      }
      WalkCovers(s, next);
      assert s[i..] == s[i..next] + s[next..];
    }
  }

  /** The driver loses nothing: decoding its bytes and writing the code
      points back as UTF-16 gives the string again. */
  lemma Utf8ArrayLossless(s: JsString)
    ensures var cps := DecodeAll(Utf8Array(s));
            (forall k | 0 <= k < |cps| :: 0 <= cps[k] <= 0x10FFFF) && Utf16All(cps) == s
  {
    DecodeUtf8Array(s);
    WalkCovers(s, 0);
  }

  /** On ASCII text the driver copies the code units. */
  lemma {:induction false} AsciiUtf8ArrayFrom(s: JsString, i: nat)
    requires forall k | 0 <= k < |s| :: s[k] < 0x80
    requires i <= |s|
    ensures Utf8ArrayFrom(s, i) == s[i..]
    decreases |s| - i
  {
    if i < |s| {
      AsciiStep(s, i);
      AsciiUtf8ArrayFrom(s, i + 1);
      DropFirst(s, i);
    }
  }

  lemma DropFirst(s: JsString, i: nat)
    requires i < |s|
    ensures s[i..] == [s[i]] + s[i + 1..]
  {
  }

  /** One ASCII code unit is one byte. */
  lemma AsciiStep(s: JsString, i: nat)
    requires i < |s| && s[i] < 0x80
    ensures Utf8ArrayFrom(s, i) == [s[i]] + Utf8ArrayFrom(s, i + 1)
  {
    assert CodePointAt(s, i) == s[i];
    assert Encoded(s[i]) == [s[i]];
  }

  /** Number of UTF-8 bytes of a string. */
  function Utf8Length(s: JsString): nat
  {
    |Utf8Array(s)|
  }

  /** A password is truncated when its UTF-8 form exceeds the 72 bytes the
      key schedule reads. */
  predicate Truncates(s: JsString)
  {
    Utf8Length(s) > 72
  }

  /** `n` copies of the letter 'a'. */
  function As(n: nat): (r: JsString)
    ensures |r| == n && forall k | 0 <= k < n :: r[k] == 'a' as int
  {
    seq(n, _ => 'a' as int)
  }

  /** The empty string and 72 'a's are not truncated; 73 'a's are. */
  lemma TruncatesVectors()
    ensures !Truncates([])
    ensures !Truncates(As(72))
    ensures Truncates(As(73))
  {
    AsciiUtf8ArrayFrom(As(72), 0);
    AsciiUtf8ArrayFrom(As(73), 0);
  }
}
