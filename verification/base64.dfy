/**
 * bcrypt's length-delimited base64 (src/base64.js).
 *
 * The alphabet is `./A-Za-z0-9`, not the one of section 4 of RFC 4648, and
 * there is no `=` padding: `encode` emits a 2- or 3-character partial group
 * for a trailing 1 or 2 bytes. `decode` produces at most `len` values and
 * stops quietly at a character outside the alphabet.
 *
 * The bit operations of the source act on values below 256, so they are
 * written here as integer arithmetic: `x >> k` is `x / 2^k`, `x & (2^k - 1)`
 * is `x % 2^k`, and `|` of disjoint bit fields is `+`.
 */
module Base64 {
  import opened Js

  /** `n` consecutive code units starting at `first`. */
  function Run(first: int, n: nat): (r: seq<CodeUnit>)
    requires 0 <= first && first + n <= 0x1_0000
    ensures |r| == n
    ensures forall i | 0 <= i < n :: r[i] == first + i
  {
    seq(n, i requires 0 <= i < n => first + i)
  }

  /** BASE64_CODE: '.', '/', then 'A'-'Z', 'a'-'z', '0'-'9'. */
  const Code: seq<CodeUnit> := ['.' as int, '/' as int] + Run('A' as int, 26) + Run('a' as int, 26) + Run('0' as int, 10)

  /** BASE64_INDEX[c] for a character code `c < 128`: the position of `c` in
      BASE64_CODE, -1 for every code outside the alphabet. */
  function IndexEntry(c: int): int
  {
    if c == '.' as int then 0
    else if c == '/' as int then 1
    else if 'A' as int <= c <= 'Z' as int then c - 'A' as int + 2
    else if 'a' as int <= c <= 'z' as int then c - 'a' as int + 28
    else if '0' as int <= c <= '9' as int then c - '0' as int + 54
    else -1
  }

  /** `code < BASE64_INDEX.length ? BASE64_INDEX[code] : -1` */
  function Lookup(code: CodeUnit): (r: int)
    ensures -1 <= r < 64
  {
    LookupAt(code, code == code)
  }

  /** The body of `Lookup`, behind a one-step countdown started from a
      value that is not a literal: proofs about the decoder see the table
      only where `LookupIs` is called, instead of unfolding it at every
      character. */
  function LookupAt(code: CodeUnit, wait: bool): (r: int)
    ensures -1 <= r < 64
    decreases wait
  {
    if wait then LookupAt(code, false)
    else if code < 128 then IndexEntry(code) else -1
  }

  lemma LookupIs(code: CodeUnit)
    ensures Lookup(code) == if code < 128 then IndexEntry(code) else -1
  {
    assert LookupAt(code, true) == LookupAt(code, false);
  }

  /** True when `c` is one of the 64 symbols. */
  predicate InAlphabet(c: CodeUnit)
  {
    Lookup(c) != -1
  }

  /** The two tables are inverse to each other: BASE64_INDEX undoes
      BASE64_CODE, and every other code below 128 (and every code above)
      maps to -1. */
  lemma TablesInverse()
    ensures |Code| == 64
    ensures forall v | 0 <= v < 64 :: Code[v] < 128 && Lookup(Code[v]) == v
    ensures forall c: CodeUnit :: -1 <= Lookup(c) < 64
    ensures forall c: CodeUnit :: Lookup(c) != -1 ==> Code[Lookup(c)] == c
    ensures forall c: CodeUnit :: Lookup(c) == -1 <==> c !in Code
  {
    forall c: CodeUnit
      ensures Lookup(c) == -1 <==> c !in Code
    {
      if c in Code {
        var v :| 0 <= v < |Code| && Code[v] == c;
        assert Lookup(Code[v]) == v;
      }
      if Lookup(c) != -1 {
        assert Code[Lookup(c)] == c;
      }
    }
  }

  /** BASE64_CODE[v]: the character for the 6-bit value `v`. */
  function Sym(v: int): (c: CodeUnit)
    requires 0 <= v < 64
  {
    if v == 0 then '.' as int
    else if v == 1 then '/' as int
    else if v < 28 then 'A' as int + (v - 2)
    else if v < 54 then 'a' as int + (v - 28)
    else '0' as int + (v - 54)
  }

  /** `Sym` is the table lookup it replaces, and `Lookup` undoes it. */
  lemma SymIsCode(v: int)
    requires 0 <= v < 64
    ensures Sym(v) == Code[v]
    ensures InAlphabet(Sym(v)) && Lookup(Sym(v)) == v
  {
    LookupIs(Sym(v));
  }

  /** Number of characters `encode` emits for `len` bytes. */
  function EncodedLength(len: nat): nat
  {
    4 * (len / 3) + (if len % 3 == 0 then 0 else len % 3 + 1)
  }

  /** The loop of `base64.encode` from input offset `off`: each round reads
      one to three bytes, masked with `& 0xff`. */
  function EncodeFrom(b: seq<int>, off: nat, len: nat): (r: JsString)
    requires off <= len <= |b|
    ensures |r| == EncodedLength(len - off)
    decreases len - off
  {
    if off >= len then []
    else
      var c1 := Low8(b[off]);
      var first := Sym(c1 / 4);                   // (c1 >> 2) & 0x3f
      var carry := (c1 % 4) * 16;                 // (c1 & 0x03) << 4
      if off + 1 >= len then [first, Sym(carry)]
      else
        var c2 := Low8(b[off + 1]);
        var second := Sym(carry + c2 / 16);       // c1 |= (c2 >> 4) & 0x0f
        var carry' := (c2 % 16) * 4;              // (c2 & 0x0f) << 2
        if off + 2 >= len then [first, second, Sym(carry')]
        else
          var c3 := Low8(b[off + 2]);
          var third := Sym(carry' + c3 / 64);     // c1 |= (c2 >> 6) & 0x03
          [first, second, third, Sym(c3 % 64)] + EncodeFrom(b, off + 3, len)
  }

  /** `base64.encode(b, len)`: throws for `len <= 0` or `len > b.length`,
      otherwise encodes the first `len` elements without padding. */
  function Encode(b: seq<int>, len: int): (r: Result<JsString>)
    ensures r.Err? <==> len <= 0 || len > |b|
    ensures r.Err? ==> r.error == IllegalLen
    ensures r.Ok? ==> |r.value| == EncodedLength(len)
  {
    if len <= 0 || len > |b| then Err(IllegalLen)
    else Ok(EncodeFrom(b, 0, len))
  }

  /** Every character `encode` writes is one of the 64 symbols. */
  lemma EncodeAlphabet(b: seq<int>, len: int)
    requires 0 < len <= |b|
    ensures forall i | 0 <= i < |Encode(b, len).value| :: InAlphabet(Encode(b, len).value[i])
  {
    EncodeFromAlphabet(b, 0, len);
  }

  /** Every character of `EncodeFrom` is a `Sym`, so one of the 64. */
  lemma {:induction false} EncodeFromAlphabet(b: seq<int>, off: nat, len: nat)
    requires off <= len <= |b|
    ensures forall i | 0 <= i < |EncodeFrom(b, off, len)| :: InAlphabet(EncodeFrom(b, off, len)[i])
    decreases len - off
  {
    if off < len {
      var x1 := Low8(b[off]);
      var x2 := if off + 1 < len then Low8(b[off + 1]) else 0;
      var x3 := if off + 2 < len then Low8(b[off + 2]) else 0;
      GroupSyms(x1, x2, x3);
      if off + 3 <= len {
        EncodeFromAlphabet(b, off + 3, len);
        EncodeFromGroup(b, off, len);
      }
    }
  }

  /** The four symbols of a group read back as their 6-bit values. */
  lemma GroupSyms(x1: Byte, x2: Byte, x3: Byte)
    ensures Lookup(Sym(x1 / 4)) == x1 / 4
    ensures Lookup(Sym((x1 % 4) * 16 + x2 / 16)) == (x1 % 4) * 16 + x2 / 16
    ensures Lookup(Sym((x2 % 16) * 4 + x3 / 64)) == (x2 % 16) * 4 + x3 / 64
    ensures Lookup(Sym(x3 % 64)) == x3 % 64
  {
    SymIsCode(x1 / 4);
    SymIsCode((x1 % 4) * 16 + x2 / 16);
    SymIsCode((x2 % 16) * 4 + x3 / 64);
    SymIsCode(x3 % 64);
  }

  /** The loop of `base64.decode` from character offset `off` with `olen`
      values already produced. A fourth character outside the alphabet is
      not checked: `o |= -1` makes the value -1, which
      `String.fromCharCode` turns into 0xFFFF. */
  function DecodeFrom(s: JsString, off: nat, olen: nat, len: int): (r: seq<CodeUnit>)
    ensures olen < len ==> olen + |r| <= len
    ensures olen >= len ==> r == []
    decreases |s| - off
  {
    if !(off < |s| - 1 && olen < len) then []
    else
      var c1 := Lookup(s[off]);
      var c2 := Lookup(s[off + 1]);
      if c1 == -1 || c2 == -1 then []
      else
        var o1 := c1 * 4 + c2 / 16;               // (c1 << 2) | ((c2 & 0x30) >> 4)
        if olen + 1 >= len || off + 2 >= |s| then [o1]
        else
          var c3 := Lookup(s[off + 2]);
          if c3 == -1 then [o1]
          else
            var o2 := (c2 % 16) * 16 + c3 / 4;    // ((c2 & 0x0f) << 4) | ((c3 & 0x3c) >> 2)
            if olen + 2 >= len || off + 3 >= |s| then [o1, o2]
            else
              var c4 := Lookup(s[off + 3]);
              var o3 := if c4 == -1 then 0xFFFF else (c3 % 4) * 64 + c4;
              [o1, o2, o3] + DecodeFrom(s, off + 4, olen + 3, len)
  }

  /** `base64.decode(s, len)`: throws for `len <= 0`, otherwise decodes at
      most `len` values. */
  function Decode(s: JsString, len: int): (r: Result<seq<CodeUnit>>)
    ensures r.Err? <==> len <= 0
    ensures r.Err? ==> r.error == IllegalLen
    ensures r.Ok? ==> |r.value| <= len
  {
    if len <= 0 then Err(IllegalLen) else Ok(DecodeFrom(s, 0, 0, len))
  }

  /** Decoding only looks at characters from `off` on: a prefix shifts the
      offsets and changes nothing else. */
  lemma {:induction false} DecodeFromShift(p: JsString, s: JsString, off: nat, olen: nat, len: int)
    ensures DecodeFrom(p + s, |p| + off, olen, len) == DecodeFrom(s, off, olen, len)
    decreases |s| - off
  {
    var t := p + s;
    assert forall i | 0 <= i < |s| :: t[|p| + i] == s[i];
    if off + 4 <= |s| {
      DecodeFromShift(p, s, off + 4, olen + 3, len);
    }
  }

  /** The 6-bit arithmetic of one group undoes itself. */
  lemma GroupArithmetic(x1: Byte, x2: Byte, x3: Byte)
    ensures (x1 / 4) * 4 + ((x1 % 4) * 16 + x2 / 16) / 16 == x1
    ensures (x1 / 4) * 4 + ((x1 % 4) * 16) / 16 == x1
    ensures (((x1 % 4) * 16 + x2 / 16) % 16) * 16 + ((x2 % 16) * 4 + x3 / 64) / 4 == x2
    ensures (((x1 % 4) * 16 + x2 / 16) % 16) * 16 + ((x2 % 16) * 4) / 4 == x2
    ensures (((x2 % 16) * 4 + x3 / 64) % 4) * 64 + x3 % 64 == x3
  {
  }

  /** The masked bytes of `b[off..n]`, one group split off. */
  lemma LowBytesGroup(b: seq<int>, off: nat, n: nat)
    requires off + 3 <= n <= |b|
    ensures LowBytes(b[off..n]) == [Low8(b[off]), Low8(b[off + 1]), Low8(b[off + 2])] + LowBytes(b[off + 3..n])
  {
    var L, R := LowBytes(b[off..n]), LowBytes(b[off + 3..n]);
    assert forall i | 3 <= i < |L| :: L[i] == R[i - 3];
  }

  /** One step of `DecodeFrom` over a leading group of four characters of
      the alphabet when at least three more values are wanted. */
  lemma DecodeFromGroup(head: JsString, rest: JsString, olen: nat, len: int)
    requires |head| == 4 && olen + 3 <= len
    requires forall k | 0 <= k < 4 :: InAlphabet(head[k])
    ensures var c1, c2, c3, c4 := Lookup(head[0]), Lookup(head[1]), Lookup(head[2]), Lookup(head[3]);
            DecodeFrom(head + rest, 0, olen, len)
            == [c1 * 4 + c2 / 16, (c2 % 16) * 16 + c3 / 4, (c3 % 4) * 64 + c4] + DecodeFrom(rest, 0, olen + 3, len)
  {
    var s := head + rest;
    assert s[..4] == head;
    DecodeFromShift(head, rest, 0, olen + 3, len);
  }

  /** One step of `EncodeFrom` over three bytes. */
  lemma EncodeFromGroup(b: seq<int>, off: nat, n: nat)
    requires off + 3 <= n <= |b|
    ensures var x1, x2, x3 := Low8(b[off]), Low8(b[off + 1]), Low8(b[off + 2]);
            EncodeFrom(b, off, n)
            == [Sym(x1 / 4), Sym((x1 % 4) * 16 + x2 / 16), Sym((x2 % 16) * 4 + x3 / 64), Sym(x3 % 64)] + EncodeFrom(b, off + 3, n)
  {
  }

  /** One full group: the first three values decoded from `EncodeFrom`
      are the three input bytes, and decoding carries on with the rest. */
  lemma DecodeEncodeGroup(b: seq<int>, off: nat, n: nat)
    requires off + 3 <= n <= |b|
    ensures DecodeFrom(EncodeFrom(b, off, n), 0, off, n)
         == [Low8(b[off]), Low8(b[off + 1]), Low8(b[off + 2])] + DecodeFrom(EncodeFrom(b, off + 3, n), 0, off + 3, n)
  {
    var x1, x2, x3 := Low8(b[off]), Low8(b[off + 1]), Low8(b[off + 2]);
    var head := [Sym(x1 / 4), Sym((x1 % 4) * 16 + x2 / 16), Sym((x2 % 16) * 4 + x3 / 64), Sym(x3 % 64)];
    EncodeFromGroupIs(b, off, n, head);
    DecodeGroupOf(x1, x2, x3, head, EncodeFrom(b, off + 3, n), off, n);
  }

  /** The four characters of three bytes decode back to the bytes. */
  lemma DecodeGroupOf(x1: Byte, x2: Byte, x3: Byte, head: JsString, rest: JsString, olen: nat, len: int)
    requires head == [Sym(x1 / 4), Sym((x1 % 4) * 16 + x2 / 16), Sym((x2 % 16) * 4 + x3 / 64), Sym(x3 % 64)]
    requires olen + 3 <= len
    ensures DecodeFrom(head + rest, 0, olen, len) == [x1, x2, x3] + DecodeFrom(rest, 0, olen + 3, len)
  {
    GroupArithmetic(x1, x2, x3);
    GroupSyms(x1, x2, x3);
    DecodeFromGroup(head, rest, olen, len);
  }

  /** The last one or two bytes: a partial group of two or three characters. */
  lemma DecodeEncodeTail(b: seq<int>, off: nat, n: nat)
    requires off < n < off + 3 && n <= |b|
    ensures DecodeFrom(EncodeFrom(b, off, n), 0, off, n) == LowBytes(b[off..n])
  {
    if n == off + 2 {
      DecodeEncodeTwo(b, off, n);
    } else {
      DecodeEncodeOne(b, off, n);
    }
  }

  lemma DecodeEncodeTwo(b: seq<int>, off: nat, n: nat)
    requires off + 2 == n <= |b|
    ensures DecodeFrom(EncodeFrom(b, off, n), 0, off, n) == LowBytes(b[off..n])
  {
    var e := EncodeFrom(b, off, n);
    var x1, x2 := Low8(b[off]), Low8(b[off + 1]);
    GroupSyms(x1, x2, 0);
    GroupArithmetic(x1, x2, 0);
    assert Lookup(e[0]) == x1 / 4 && Lookup(e[1]) == (x1 % 4) * 16 + x2 / 16;
    assert Lookup(e[2]) == (x2 % 16) * 4;
    assert DecodeFrom(e, 0, off, n) == [x1, x2];
  }

  lemma DecodeEncodeOne(b: seq<int>, off: nat, n: nat)
    requires off + 1 == n <= |b|
    ensures DecodeFrom(EncodeFrom(b, off, n), 0, off, n) == LowBytes(b[off..n])
  {
    var e := EncodeFrom(b, off, n);
    var x1 := Low8(b[off]);
    GroupSyms(x1, 0, 0);
    GroupArithmetic(x1, 0, 0);
    assert Lookup(e[0]) == x1 / 4 && Lookup(e[1]) == (x1 % 4) * 16;
    assert DecodeFrom(e, 0, off, n) == [x1];
  }

  /** Round trip from offset `off`: decoding what `EncodeFrom` produced
      gives back the low bytes of the input. */
  lemma {:induction false} DecodeEncodeFrom(b: seq<int>, off: nat, n: nat)
    requires off <= n <= |b|
    ensures DecodeFrom(EncodeFrom(b, off, n), 0, off, n) == LowBytes(b[off..n])
    decreases n - off
  {
    if off + 3 <= n {
      DecodeEncodeGroup(b, off, n);
      DecodeEncodeFrom(b, off + 3, n);
      LowBytesGroup(b, off, n);
    } else if off < n {
      DecodeEncodeTail(b, off, n);
    }
  }

  /** `encode` reads every element through `& 0xff`: inputs with the same
      low bytes encode alike ... */
  lemma {:induction false} EncodeFromLow(a: seq<int>, b: seq<int>, off: nat, n: nat)
    requires off <= n <= |a| && n <= |b|
    requires forall i | off <= i < n :: Low8(a[i]) == Low8(b[i])
    ensures EncodeFrom(a, off, n) == EncodeFrom(b, off, n)
    decreases n - off
  {
    if off + 3 <= n {
      EncodeFromLow(a, b, off + 3, n);
      EncodeFromGroupLow(a, b, off, n);
    } else if off + 1 < n {
      EncodeFromPairLow(a, b, off, n);
    } else if off < n {
      EncodeFromOneLow(a, b, off, n);
    }
  }

  lemma EncodeFromGroupLow(a: seq<int>, b: seq<int>, off: nat, n: nat)
    requires off + 3 <= n <= |a| && n <= |b|
    requires Low8(a[off]) == Low8(b[off]) && Low8(a[off + 1]) == Low8(b[off + 1])
    requires Low8(a[off + 2]) == Low8(b[off + 2])
    requires EncodeFrom(a, off + 3, n) == EncodeFrom(b, off + 3, n)
    ensures EncodeFrom(a, off, n) == EncodeFrom(b, off, n)
  {
    var x1, x2, x3 := Low8(a[off]), Low8(a[off + 1]), Low8(a[off + 2]);
    var head := [Sym(x1 / 4), Sym((x1 % 4) * 16 + x2 / 16), Sym((x2 % 16) * 4 + x3 / 64), Sym(x3 % 64)];
    EncodeFromGroupIs(a, off, n, head);
    EncodeFromGroupIs(b, off, n, head);
  }

  lemma EncodeFromPairLow(a: seq<int>, b: seq<int>, off: nat, n: nat)
    requires off + 2 == n <= |a| && n <= |b|
    requires Low8(a[off]) == Low8(b[off]) && Low8(a[off + 1]) == Low8(b[off + 1])
    ensures EncodeFrom(a, off, n) == EncodeFrom(b, off, n)
  {
  }

  lemma EncodeFromOneLow(a: seq<int>, b: seq<int>, off: nat, n: nat)
    requires off + 1 == n <= |a| && n <= |b|
    requires Low8(a[off]) == Low8(b[off])
    ensures EncodeFrom(a, off, n) == EncodeFrom(b, off, n)
  {
  }

  /** ... and so do their encodings as a whole. */
  lemma EncodeLow(a: seq<int>, b: seq<int>, n: int)
    requires 1 <= n <= |a| && n <= |b|
    requires forall i | 0 <= i < n :: Low8(a[i]) == Low8(b[i])
    ensures Encode(a, n) == Encode(b, n)
  {
    EncodeFromLow(a, b, 0, n);
  }

  /** Round trip: for `1 <= n <= |b|`, `decode(encode(b, n), n)` returns the
      first `n` elements masked to bytes; for byte input that is `b[..n]`. */
  lemma DecodeEncode(b: seq<int>, n: int)
    requires 1 <= n <= |b|
    ensures Encode(b, n).Ok?
    ensures Decode(Encode(b, n).value, n) == Ok(LowBytes(b[..n]))
    ensures AllBytes(b) ==> Decode(Encode(b, n).value, n) == Ok(b[..n])
  {
    DecodeEncodeFrom(b, 0, n);
    assert b[0..n] == b[..n];
    if AllBytes(b) {
      assert LowBytes(b[..n]) == b[..n];
    }
  }

  /** Decoding stops at the first character outside the alphabet when it
      is the 1st, 2nd or 3rd of its group: the result is what the string
      cut before that character decodes to. */
  lemma {:induction false} DecodeFromStops(s: JsString, off: nat, olen: nat, len: int, j: nat)
    requires off <= j < |s| && off % 4 == 0 && j % 4 != 3
    requires !InAlphabet(s[j])
    requires forall i | off <= i < j :: InAlphabet(s[i])
    ensures DecodeFrom(s, off, olen, len) == DecodeFrom(s[..j], off, olen, len)
    decreases j - off
  {
    if off + 4 <= j {
      DecodeFromStops(s, off + 4, olen + 3, len, j);
    }
  }

  /** `decode` is lenient: a character outside the alphabet at position `j`
      (not the 4th of a group) ends decoding with what was produced so far. */
  lemma DecodeStops(s: JsString, len: int, j: nat)
    requires j < |s| && j % 4 != 3
    requires !InAlphabet(s[j])
    requires forall i | 0 <= i < j :: InAlphabet(s[i])
    ensures Decode(s, len) == Decode(s[..j], len)
  {
    DecodeFromStops(s, 0, 0, len, j);
  }

  /** A 4th character outside the alphabet is not a terminator: the group
      still yields three values, the last one 0xFFFF. */
  lemma DecodeUncheckedFourth()
    ensures Decode(Str("...*"), 3) == Ok([0, 0, 0xFFFF])
  {
    var s := Str("...*");
    assert s == ['.' as int, '.' as int, '.' as int, '*' as int];
    LookupIs('.' as int);
    LookupIs('*' as int);
    assert DecodeFrom(s, 4, 3, 3) == [];
    assert DecodeFrom(s, 0, 0, 3) == [0, 0, 0xFFFF];
  }

  /** The bytes of the repository's base64 test vector, 0x00..0x10. */
  const VectorBytes: seq<int> := [0x00, 0x01, 0x02, 0x03, 0x04, 0x05, 0x06, 0x07, 0x08, 0x09, 0x0a, 0x0b,
                                  0x0c, 0x0d, 0x0e, 0x0f, 0x10]

  /** `EncodeFromGroup` with the four characters given. */
  lemma EncodeFromGroupIs(b: seq<int>, off: nat, n: nat, want: JsString)
    requires off + 3 <= n <= |b|
    requires var x1, x2, x3 := Low8(b[off]), Low8(b[off + 1]), Low8(b[off + 2]);
             want == [Sym(x1 / 4), Sym((x1 % 4) * 16 + x2 / 16), Sym((x2 % 16) * 4 + x3 / 64), Sym(x3 % 64)]
    ensures EncodeFrom(b, off, n) == want + EncodeFrom(b, off + 3, n)
  {
    EncodeFromGroup(b, off, n);
  }

  lemma EncodeVector15(vb: seq<int>)
    requires vb == VectorBytes
    ensures EncodeFrom(vb, 15, 16) == Str("Bu")
  {
  }

  lemma EncodeVectorStep12(vb: seq<int>)
    requires vb == VectorBytes
    ensures EncodeFrom(vb, 12, 16) == Str("B.yM") + EncodeFrom(vb, 15, 16)
  {
    EncodeFromGroupIs(vb, 12, 16, Str("B.yM"));
  }

  lemma EncodeVector12(vb: seq<int>)
    requires vb == VectorBytes
    ensures EncodeFrom(vb, 12, 16) == Str("B.yM") + Str("Bu")
  {
    EncodeVectorStep12(vb);
    EncodeVector15(vb);
  }

  lemma EncodeVectorStep9(vb: seq<int>)
    requires vb == VectorBytes
    ensures EncodeFrom(vb, 9, 16) == Str("AOmJ") + EncodeFrom(vb, 12, 16)
  {
    EncodeFromGroupIs(vb, 9, 16, Str("AOmJ"));
  }

  lemma EncodeVector9(vb: seq<int>)
    requires vb == VectorBytes
    ensures EncodeFrom(vb, 9, 16) == Str("AOmJ") + (Str("B.yM") + Str("Bu"))
  {
    EncodeVectorStep9(vb);
    EncodeVector12(vb);
  }

  lemma EncodeVectorStep6(vb: seq<int>)
    requires vb == VectorBytes
    ensures EncodeFrom(vb, 6, 16) == Str("/eaG") + EncodeFrom(vb, 9, 16)
  {
    EncodeFromGroupIs(vb, 6, 16, Str("/eaG"));
  }

  lemma EncodeVector6(vb: seq<int>)
    requires vb == VectorBytes
    ensures EncodeFrom(vb, 6, 16) == Str("/eaG") + (Str("AOmJ") + (Str("B.yM") + Str("Bu")))
  {
    EncodeVectorStep6(vb);
    EncodeVector9(vb);
  }

  lemma EncodeVectorStep3(vb: seq<int>)
    requires vb == VectorBytes
    ensures EncodeFrom(vb, 3, 16) == Str(".uOD") + EncodeFrom(vb, 6, 16)
  {
    EncodeFromGroupIs(vb, 3, 16, Str(".uOD"));
  }

  lemma EncodeVector3(vb: seq<int>)
    requires vb == VectorBytes
    ensures EncodeFrom(vb, 3, 16) == Str(".uOD") + (Str("/eaG") + (Str("AOmJ") + (Str("B.yM") + Str("Bu"))))
  {
    EncodeVectorStep3(vb);
    EncodeVector6(vb);
  }

  lemma EncodeVectorStep0(vb: seq<int>)
    requires vb == VectorBytes
    ensures EncodeFrom(vb, 0, 16) == Str("..CA") + EncodeFrom(vb, 3, 16)
  {
    EncodeFromGroupIs(vb, 0, 16, Str("..CA"));
  }

  lemma EncodeVector0(vb: seq<int>)
    requires vb == VectorBytes
    ensures EncodeFrom(vb, 0, 16) == Str("..CA") + (Str(".uOD") + (Str("/eaG") + (Str("AOmJ") + (Str("B.yM") + Str("Bu")))))
  {
    EncodeVectorStep0(vb);
    EncodeVector3(vb);
  }

  /** `encode` of bytes 0x00..0x10 with `len` 16 (the 17th byte is not read). */
  lemma EncodeVector()
    ensures Encode(VectorBytes, 16) == Ok(Str("..CA.uOD/eaGAOmJB.yMBu"))
  {
    EncodeVector0(VectorBytes);
    EncodeVectorSplit();
  }

  lemma EncodeVectorSplit()
    ensures Str("..CA.uOD/eaGAOmJB.yMBu") == Str("..CA") + (Str(".uOD") + (Str("/eaG") + (Str("AOmJ") + (Str("B.yM") + Str("Bu")))))
  {
  }

  /** The string of the repository's base64 decoding vector. */
  const VectorText: JsString := Str("..CA.uOD/eaGAOmJB.yMBv.")

  /** One full group of `DecodeFrom` over four characters of the alphabet. */
  lemma DecodeFromStep(s: JsString, off: nat, olen: nat, len: int)
    requires off + 4 <= |s| && olen + 3 <= len
    requires forall k | off <= k < off + 4 :: InAlphabet(s[k])
    ensures var c1, c2, c3, c4 := Lookup(s[off]), Lookup(s[off + 1]), Lookup(s[off + 2]), Lookup(s[off + 3]);
            DecodeFrom(s, off, olen, len)
            == [c1 * 4 + c2 / 16, (c2 % 16) * 16 + c3 / 4, (c3 % 4) * 64 + c4] + DecodeFrom(s, off + 4, olen + 3, len)
  {
  }

  lemma DecodeVector20(vt: JsString)
    requires vt == VectorText
    ensures DecodeFrom(vt, 20, 15, 16) == [0x0f]
  {
    LookupIs(vt[20]);
    LookupIs(vt[21]);
  }

  lemma DecodeVectorLookups16(vt: JsString)
    requires vt == VectorText
    ensures Lookup(vt[16]) == 3 && Lookup(vt[17]) == 0 && Lookup(vt[18]) == 52 && Lookup(vt[19]) == 14
  {
    LookupIs(vt[16]);
    LookupIs(vt[17]);
    LookupIs(vt[18]);
    LookupIs(vt[19]);
  }

  lemma DecodeVectorStep16(vt: JsString)
    requires vt == VectorText
    ensures DecodeFrom(vt, 16, 12, 16) == [0x0c, 0x0d, 0x0e] + DecodeFrom(vt, 20, 15, 16)
  {
    DecodeVectorLookups16(vt);
    DecodeFromStep(vt, 16, 12, 16);
  }

  lemma DecodeVector16(vt: JsString)
    requires vt == VectorText
    ensures DecodeFrom(vt, 16, 12, 16) == [0x0c, 0x0d, 0x0e, 0x0f]
  {
    DecodeVectorStep16(vt);
    DecodeVector20(vt);
  }

  lemma DecodeVectorLookups12(vt: JsString)
    requires vt == VectorText
    ensures Lookup(vt[12]) == 2 && Lookup(vt[13]) == 16 && Lookup(vt[14]) == 40 && Lookup(vt[15]) == 11
  {
    LookupIs(vt[12]);
    LookupIs(vt[13]);
    LookupIs(vt[14]);
    LookupIs(vt[15]);
  }

  lemma DecodeVectorStep12(vt: JsString)
    requires vt == VectorText
    ensures DecodeFrom(vt, 12, 9, 16) == [0x09, 0x0a, 0x0b] + DecodeFrom(vt, 16, 12, 16)
  {
    DecodeVectorLookups12(vt);
    DecodeFromStep(vt, 12, 9, 16);
  }

  lemma DecodeVector12(vt: JsString)
    requires vt == VectorText
    ensures DecodeFrom(vt, 12, 9, 16) == [0x09, 0x0a, 0x0b, 0x0c, 0x0d, 0x0e, 0x0f]
  {
    DecodeVectorStep12(vt);
    DecodeVector16(vt);
  }

  lemma DecodeVectorLookups8(vt: JsString)
    requires vt == VectorText
    ensures Lookup(vt[8]) == 1 && Lookup(vt[9]) == 32 && Lookup(vt[10]) == 28 && Lookup(vt[11]) == 8
  {
    LookupIs(vt[8]);
    LookupIs(vt[9]);
    LookupIs(vt[10]);
    LookupIs(vt[11]);
  }

  lemma DecodeVectorStep8(vt: JsString)
    requires vt == VectorText
    ensures DecodeFrom(vt, 8, 6, 16) == [0x06, 0x07, 0x08] + DecodeFrom(vt, 12, 9, 16)
  {
    DecodeVectorLookups8(vt);
    DecodeFromStep(vt, 8, 6, 16);
  }

  lemma DecodeVector8(vt: JsString)
    requires vt == VectorText
    ensures DecodeFrom(vt, 8, 6, 16) == [0x06, 0x07, 0x08, 0x09, 0x0a, 0x0b, 0x0c, 0x0d, 0x0e, 0x0f]
  {
    DecodeVectorStep8(vt);
    DecodeVector12(vt);
  }

  lemma DecodeVectorLookups4(vt: JsString)
    requires vt == VectorText
    ensures Lookup(vt[4]) == 0 && Lookup(vt[5]) == 48 && Lookup(vt[6]) == 16 && Lookup(vt[7]) == 5
  {
    LookupIs(vt[4]);
    LookupIs(vt[5]);
    LookupIs(vt[6]);
    LookupIs(vt[7]);
  }

  lemma DecodeVectorStep4(vt: JsString)
    requires vt == VectorText
    ensures DecodeFrom(vt, 4, 3, 16) == [0x03, 0x04, 0x05] + DecodeFrom(vt, 8, 6, 16)
  {
    DecodeVectorLookups4(vt);
    DecodeFromStep(vt, 4, 3, 16);
  }

  lemma DecodeVector4(vt: JsString)
    requires vt == VectorText
    ensures DecodeFrom(vt, 4, 3, 16) == [0x03, 0x04, 0x05, 0x06, 0x07, 0x08, 0x09, 0x0a, 0x0b, 0x0c, 0x0d, 0x0e, 0x0f]
  {
    DecodeVectorStep4(vt);
    DecodeVector8(vt);
  }

  lemma DecodeVectorLookups0(vt: JsString)
    requires vt == VectorText
    ensures Lookup(vt[0]) == 0 && Lookup(vt[1]) == 0 && Lookup(vt[2]) == 4 && Lookup(vt[3]) == 2
  {
    LookupIs(vt[0]);
    LookupIs(vt[1]);
    LookupIs(vt[2]);
    LookupIs(vt[3]);
  }

  lemma DecodeVectorStep0(vt: JsString)
    requires vt == VectorText
    ensures DecodeFrom(vt, 0, 0, 16) == [0x00, 0x01, 0x02] + DecodeFrom(vt, 4, 3, 16)
  {
    DecodeVectorLookups0(vt);
    DecodeFromStep(vt, 0, 0, 16);
  }

  lemma DecodeVector0(vt: JsString)
    requires vt == VectorText
    ensures DecodeFrom(vt, 0, 0, 16) == [0x00, 0x01, 0x02, 0x03, 0x04, 0x05, 0x06, 0x07, 0x08, 0x09, 0x0a, 0x0b, 0x0c, 0x0d, 0x0e, 0x0f]
  {
    DecodeVectorStep0(vt);
    DecodeVector4(vt);
  }

  /** `decode` of the 23-character vector with `len` 16 stops after 16 bytes. */
  lemma DecodeVector()
    ensures Decode(VectorText, 16)
            == Ok([0x00, 0x01, 0x02, 0x03, 0x04, 0x05, 0x06, 0x07, 0x08, 0x09, 0x0a, 0x0b,
                   0x0c, 0x0d, 0x0e, 0x0f])
  {
    DecodeVector0(VectorText);
  }
}
