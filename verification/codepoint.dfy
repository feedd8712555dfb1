/**
 * The `String.prototype.codePointAt` polyfill (src/utf8/codepoint.js): UTF-16
 * surrogate pairs to code points, as in section 2.2 of RFC 2781.
 */
module CodePoint {
  import opened Js

  /** The `position` argument. JavaScript coerces a missing argument and the
      number 0 alike to index 0 (both are falsy), and `NaN` as well. A
      fractional position is not modelled. */
  datatype Position = Missing | NotANumber | At(index: int)

  /** The index `codePointAt` starts from. */
  function StartIndex(p: Position): int
  {
    match p
    case Missing => 0
    case NotANumber => 0
    case At(i) => i
  }

  predicate IsHighSurrogate(u: int)
  {
    0xD800 <= u <= 0xDBFF
  }

  predicate IsLowSurrogate(u: int)
  {
    0xDC00 <= u <= 0xDFFF
  }

  /** The code point a high and a low surrogate stand for. */
  function Combine(hi: int, lo: int): int
  {
    (hi - 0xD800) * 0x400 + lo - 0xDC00 + 0x10000
  }

  /** True when a surrogate pair starts at index `i`. */
  predicate PairAt(s: JsString, i: int)
  {
    0 <= i && i + 1 < |s| && IsHighSurrogate(s[i]) && IsLowSurrogate(s[i + 1])
  }

  /** `s.codePointAt(position)`; `None` is `undefined`. */
  function CodePointAt(s: JsString, position: Position): (r: Option<int>)
    ensures r.None? <==> StartIndex(position) < 0 || StartIndex(position) >= |s|
    ensures r.Some? ==> 0 <= r.value <= 0x10FFFF
    ensures r.Some? ==> (0x10000 <= r.value <==> PairAt(s, StartIndex(position)))
    ensures r.Some? && !PairAt(s, StartIndex(position)) ==> r.value == s[StartIndex(position)]
  {
    var index := StartIndex(position);
    if index < 0 || index >= |s| then None
    else
      var first := s[index];
      if IsHighSurrogate(first) && |s| > index + 1 && IsLowSurrogate(s[index + 1]) then
        Some(Combine(first, s[index + 1]))
      else
        Some(first)
  }

  /** The UTF-16 form of a code point (section 2.1 of RFC 2781): itself below
      0x10000, otherwise a high and a low surrogate. This is the reference
      encoding the decoder above inverts. */
  function Utf16(cp: int): (r: JsString)
    requires 0 <= cp <= 0x10FFFF
    ensures |r| == (if cp < 0x10000 then 1 else 2)
  {
    if cp < 0x10000 then [cp]
    else
      var v := cp - 0x10000;
      [0xD800 + v / 0x400, 0xDC00 + v % 0x400]
  }

  /** Decoding the UTF-16 form of a supplementary code point gives it back. */
  lemma DecodeUtf16Pair(cp: int, rest: JsString)
    requires 0x10000 <= cp <= 0x10FFFF
    ensures CodePointAt(Utf16(cp) + rest, At(0)) == Some(cp)
  {
    var v := cp - 0x10000;
    var s := Utf16(cp) + rest;
    assert s[0] == 0xD800 + v / 0x400 && s[1] == 0xDC00 + v % 0x400;
    assert PairAt(s, 0);
  }

  /** A basic-plane code unit decodes to itself unless it is a high surrogate
      followed by a low one. */
  lemma DecodeUtf16Single(cp: int, rest: JsString)
    requires 0 <= cp < 0x10000
    requires !(IsHighSurrogate(cp) && |rest| > 0 && IsLowSurrogate(rest[0]))
    ensures CodePointAt(Utf16(cp) + rest, At(0)) == Some(cp)
  {
    assert (Utf16(cp) + rest)[0] == cp;
  }

  /** Conversely, a surrogate pair is the UTF-16 form of the code point it
      decodes to: decoding loses nothing. */
  lemma PairIsUtf16(s: JsString, i: int)
    requires PairAt(s, i)
    ensures CodePointAt(s, At(i)).Some?
    ensures Utf16(CodePointAt(s, At(i)).value) == s[i..i + 2]
  {
    var cp := Combine(s[i], s[i + 1]);
    var v := cp - 0x10000;
    assert v / 0x400 == s[i] - 0xD800 && v % 0x400 == s[i + 1] - 0xDC00;
  }
}
