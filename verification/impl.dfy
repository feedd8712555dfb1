/**
 * `Impl.prototype.hash` (src/bcrypt/impl.js): the checks on the salt string,
 * the preparation of the password, the call of `_crypt` and the `finish`
 * step that assembles the 60-character hash string.
 *
 * Only the synchronous path is modelled: the callback variant runs the same
 * steps and hands the same string or error to its callback.
 */
module Impl {
  import opened Js
  import Base64
  import Utf8
  import opened Slicing
  import opened Blowfish
  import opened Crypt

  /** What the checks of `hash` take from a salt string: the minor version
      (code unit 0 for "$2$"), the index where the rounds field starts, the
      number of rounds and the encoded salt (22 characters, fewer if the
      string is short). */
  datatype Parsed = Parsed(minor: CodeUnit, offset: nat, rounds: Number, text: JsString)

  /** A minor version `hash` accepts after "$2". */
  predicate IsMinor(c: CodeUnit)
  {
    c == 'a' as int || c == 'b' as int || c == 'y' as int
  }

  /** The version prefix "$2", read with `charAt`. */
  predicate VersionOk(salt: JsString)
  {
    CharAtIs(salt, 0, '$') && CharAtIs(salt, 1, '2')
  }

  /** The revision part after "$2": either '$' right away (minor 0, rounds
      at index 3) or an accepted minor followed by '$' (rounds at index 4). */
  predicate RevisionOk(salt: JsString, minor: CodeUnit, offset: nat)
  {
    (offset == 3 && minor == 0 && CharAtIs(salt, 2, '$'))
    || (offset == 4 && IsMinor(minor) && 2 < |salt| && salt[2] == minor && CharAtIs(salt, 3, '$'))
  }

  /** `salt.charAt(offset + 2) > '$'`: the character after the two digits
      of the rounds field sorts above '$'. Past the end `charAt` yields the
      empty string, which sorts below every character. */
  predicate RoundsMissing(salt: JsString, offset: nat)
  {
    offset + 2 < |salt| && salt[offset + 2] > '$' as int
  }

  /** `parseInt(s.substring(i, i + 1), 10)`: a decimal digit gives its
      value; any other character, or the empty string past the end, gives
      `NaN`. */
  function DigitAt(s: JsString, i: nat): (r: Number)
    ensures r.Int? <==> i < |s| && '0' as int <= s[i] <= '9' as int
    ensures r.Int? ==> 0 <= r.v <= 9
  {
    if i < |s| && '0' as int <= s[i] <= '9' as int then Int(s[i] - '0' as int) else NaN
  }

  /** `r1 + r2` with `r1 = tens * 10`: `NaN` if either part is `NaN`. */
  function Combine(tens: Number, ones: Number): (r: Number)
    ensures r.Int? <==> tens.Int? && ones.Int?
  {
    if tens.Int? && ones.Int? then Int(10 * tens.v + ones.v) else NaN
  }

  /** The salt checks of `hash`, in the source's order, and the fields it
      reads once they pass: each error exactly when its condition holds. */
  function ParseSalt(salt: JsString): (r: Result<Parsed>)
    ensures r.Err? ==> r.error == InvalidSaltVersion || r.error == InvalidSaltRevision || r.error == MissingSaltRounds
    ensures r == Err(InvalidSaltVersion) <==> !VersionOk(salt)
    ensures r == Err(InvalidSaltRevision)
            <==> VersionOk(salt) && !RevisionOk(salt, 0, 3) && !(2 < |salt| && RevisionOk(salt, salt[2], 4))
    ensures r == Err(MissingSaltRounds)
            <==> VersionOk(salt) && ((RevisionOk(salt, 0, 3) && RoundsMissing(salt, 3))
                                     || (2 < |salt| && RevisionOk(salt, salt[2], 4) && RoundsMissing(salt, 4)))
    ensures r.Ok? ==> VersionOk(salt) && RevisionOk(salt, r.value.minor, r.value.offset)
                      && !RoundsMissing(salt, r.value.offset)
    ensures r.Ok? ==> r.value.rounds == Combine(DigitAt(salt, r.value.offset), DigitAt(salt, r.value.offset + 1))
    ensures r.Ok? ==> r.value.text == Substring(salt, r.value.offset + 3, r.value.offset + 25)
  {
    if !VersionOk(salt) then Err(InvalidSaltVersion)
    else
      var dollar := CharAtIs(salt, 2, '$');
      var minor: CodeUnit := if dollar || |salt| <= 2 then 0 else salt[2];
      var offset: nat := if dollar then 3 else 4;
      if offset == 4 && !RevisionOk(salt, minor, 4) then Err(InvalidSaltRevision)
      else if RoundsMissing(salt, offset) then Err(MissingSaltRounds)
      else
        var rounds := Combine(DigitAt(salt, offset), DigitAt(salt, offset + 1));
        Ok(Parsed(minor, offset, rounds, Substring(salt, offset + 3, offset + 25)))
  }

  /** `rounds.toString()` preceded by "0" when `rounds < 10`, for a round
      count `_crypt` accepted: two digits for a number in [4, 31], and
      "NaN", whose every character sorts above '$', for `NaN`
      (`NaN < 10` is false). */
  function RoundsText(rounds: Number): (t: JsString)
    requires !BadRounds(rounds)
    ensures rounds.Int? ==> |t| == 2 && Combine(DigitAt(t, 0), DigitAt(t, 1)) == rounds
    ensures rounds.NaN? ==> |t| == 3 && forall i | 0 <= i < |t| :: t[i] > '$' as int
  {
    if rounds.NaN? then ['N' as int, 'a' as int, 'N' as int]
    else ['0' as int + rounds.v / 10, '0' as int + rounds.v % 10]
  }

  /** The part of the result before the encoded salt:
      "$2", the minor version unless it is 0, "$", the rounds, "$". */
  function Header(minor: CodeUnit, rounds: Number): (h: JsString)
    requires !BadRounds(rounds)
  {
    ['$' as int, '2' as int] + (if minor >= 'a' as int then [minor] else []) + ['$' as int]
    + RoundsText(rounds) + ['$' as int]
  }

  /** `finish(bytes)`: the header, the 16 salt bytes in 22 characters and
      the first 23 of the 24 digest bytes in 31 characters. */
  function Finish(minor: CodeUnit, rounds: Number, saltb: seq<int>, bytes: seq<int>): (h: JsString)
    requires !BadRounds(rounds) && |saltb| == SaltLen && |bytes| >= 23
    ensures |h| == |Header(minor, rounds)| + 22 + 31
    ensures |h| == 59 + (if minor >= 'a' as int then 1 else 0) + (if rounds.NaN? then 1 else 0)
  {
    Header(minor, rounds) + Base64.Encode(saltb, SaltLen).value + Base64.Encode(bytes, 23).value
  }

  /** The bytes `_crypt` hashes: the password with a NUL appended for the
      minor versions a, b and y, as UTF-8. */
  function PasswordBytes(s: JsString, minor: CodeUnit): seq<int>
  {
    Utf8.Utf8Array(s + (if minor >= 'a' as int then [0] else []))
  }

  /** The 16 salt bytes `hash` decodes from the parsed salt text (fewer if
      the text is short or leaves the alphabet early). */
  function SaltBytes(p: Parsed): (b: seq<int>)
    ensures |b| <= SaltLen
  {
    Base64.Decode(p.text, SaltLen).value
  }

  /** The hash string for a salt that passes the checks of `_crypt`,
      written without slices: `finish` applied to the reference digest. */
  function Expected(k: Constants, minor: CodeUnit, rounds: Number, password: seq<int>, saltb: seq<int>): (h: JsString)
    requires ConstantsOk(k) && !BadRounds(rounds) && |saltb| == SaltLen
  {
    Finish(minor, rounds, saltb, Bcrypt(k, password, saltb, ShiftCount(rounds)))
  }

  /** `finish(_crypt(passwordb, saltb, rounds))`: the checks of `_crypt` on
      the rounds and the salt length, the sliced rounds, then `finish`. */
  function CryptFinish(k: Constants, minor: CodeUnit, rounds: Number, password: seq<int>, saltb: seq<int>,
                       quota: nat -> nat): (r: Result<JsString>)
    requires ConstantsOk(k) && Positive(quota)
    ensures r == if BadRounds(rounds) then Err(IllegalRounds)
                 else if |saltb| != SaltLen then Err(IllegalSaltLength)
                 else Ok(Expected(k, minor, rounds, password, saltb))
  {
    var out :- CryptSync(k, password, saltb, rounds, quota);
    Ok(Finish(minor, rounds, saltb, out.digest))
  }

  /** `hash(s, salt)` without a callback: the salt checks, then `_crypt`,
      then `finish`. `quota` stands for the clock that slices the rounds;
      the result does not depend on it. */
  function Hash(k: Constants, s: JsString, salt: JsString, quota: nat -> nat): (r: Result<JsString>)
    requires ConstantsOk(k) && Positive(quota)
  {
    HashAfter(k, s, salt, quota, |s| == |s|)
  }

  /** `Hash` behind a one-step countdown, as `Crypt.RoundAfter` explains:
      proofs that only pass hashes around do not unfold the parsing and
      the formatting; `HashSpec` states what `Hash` computes. */
  function HashAfter(k: Constants, s: JsString, salt: JsString, quota: nat -> nat, wait: bool): (r: Result<JsString>)
    requires ConstantsOk(k) && Positive(quota)
    decreases wait
  {
    if wait then HashAfter(k, s, salt, quota, false)
    else
      var p :- ParseSalt(salt);
      CryptFinish(k, p.minor, p.rounds, PasswordBytes(s, p.minor), SaltBytes(p), quota)
  }

  /** `hash` fails with the error of the salt checks, then with the error
      of `_crypt`'s checks, and otherwise yields the expected hash string:
      the slicing of `next()` never shows in the result. */
  lemma HashSpec(k: Constants, s: JsString, salt: JsString, quota: nat -> nat)
    requires ConstantsOk(k) && Positive(quota)
    ensures ParseSalt(salt).Err? ==> Hash(k, s, salt, quota) == Err(ParseSalt(salt).error)
    ensures ParseSalt(salt).Ok? ==>
      var p := ParseSalt(salt).value;
      Hash(k, s, salt, quota)
        == if BadRounds(p.rounds) then Err(IllegalRounds)
           else if |SaltBytes(p)| != SaltLen then Err(IllegalSaltLength)
           else Ok(Expected(k, p.minor, p.rounds, PasswordBytes(s, p.minor), SaltBytes(p)))
  {
    assert HashAfter(k, s, salt, quota, true) == HashAfter(k, s, salt, quota, false);
  }

  /** Formatting and parsing agree: a salt that starts with the header
      `finish` writes for a numeric round count parses back to the same
      minor version and rounds, with the next 22 characters as salt text. */
  lemma ParseHeader(minor: CodeUnit, rounds: Number, rest: JsString)
    requires minor == 0 || IsMinor(minor)
    requires rounds.Int? && !BadRounds(rounds)
    ensures ParseSalt(Header(minor, rounds) + rest)
            == Ok(Parsed(minor, |Header(minor, rounds)| - 3, rounds, Substring(rest, 0, 22)))
  {
    var h := Header(minor, rounds);
    var salt := h + rest;
    var t := RoundsText(rounds);
    var offset := |h| - 3;
    assert salt[offset] == t[0] && salt[offset + 1] == t[1];
    assert salt[offset + 2] == '$' as int;
    SubstringAfter(h, rest, 0, 22);
  }

  /** The header `finish` writes for `NaN` rounds does not parse back: the
      character after the first two of "NaN" sorts above '$'. */
  lemma ParseHeaderNaN(minor: CodeUnit, rest: JsString)
    requires minor == 0 || IsMinor(minor)
    ensures ParseSalt(Header(minor, NaN) + rest) == Err(MissingSaltRounds)
  {
    var h := Header(minor, NaN);
    var salt := h + rest;
    assert salt[|h| - 2] == RoundsText(NaN)[2];
  }

  /** A hash string splits into the salt string it came from, 29 or 28
      characters ending in the encoded salt, and 31 digest characters. */
  lemma FinishSplit(minor: CodeUnit, rounds: Number, saltb: seq<int>, bytes: seq<int>)
    requires !BadRounds(rounds) && |saltb| == SaltLen && |bytes| >= 23
    ensures var h := Finish(minor, rounds, saltb, bytes);
            h[..|h| - 31] == Header(minor, rounds) + Base64.Encode(saltb, SaltLen).value
  {
  }

  /** `finish` reads the salt bytes through `& 0xff`. */
  lemma FinishLow(minor: CodeUnit, rounds: Number, saltb: seq<int>, bytes: seq<int>)
    requires !BadRounds(rounds) && |saltb| == SaltLen && |bytes| >= 23
    ensures Finish(minor, rounds, LowBytes(saltb), bytes) == Finish(minor, rounds, saltb, bytes)
  {
    Base64.EncodeLow(LowBytes(saltb), saltb, SaltLen);
  }

  /** So does the whole computation. */
  lemma ExpectedLow(k: Constants, minor: CodeUnit, rounds: Number, password: seq<int>, saltb: seq<int>)
    requires ConstantsOk(k) && !BadRounds(rounds) && |saltb| == SaltLen
    ensures Expected(k, minor, rounds, password, LowBytes(saltb)) == Expected(k, minor, rounds, password, saltb)
  {
    var n := ShiftCount(rounds);
    BcryptLow(k, password, saltb, n);
    FinishLow(minor, rounds, saltb, Bcrypt(k, password, saltb, n));
  }

  lemma BcryptLow(k: Constants, password: seq<int>, saltb: seq<int>, n: nat)
    requires ConstantsOk(k)
    ensures Bcrypt(k, password, LowBytes(saltb), n) == Bcrypt(k, password, saltb, n)
  {
    MaskedLow(saltb);
    BcryptMasked(k, password, password, LowBytes(saltb), saltb, n);
  }

  lemma MaskedLow(a: seq<int>)
    ensures Masked(LowBytes(a)) == Masked(a)
  {
    assert forall i | 0 <= i < |a| :: Masked(LowBytes(a))[i] == Masked(a)[i];
  }

  /** The salt string cut from a hash with numeric rounds parses to the
      same minor version and rounds, with the encoded salt as its text ... */
  lemma ParseFinish(minor: CodeUnit, rounds: Number, saltb: seq<int>, bytes: seq<int>)
    requires minor == 0 || IsMinor(minor)
    requires rounds.Int? && !BadRounds(rounds) && |saltb| == SaltLen && |bytes| >= 23
    ensures var h := Finish(minor, rounds, saltb, bytes);
            ParseSalt(h[..|h| - 31])
            == Ok(Parsed(minor, |Header(minor, rounds)| - 3, rounds, Base64.Encode(saltb, SaltLen).value))
  {
    var h := Finish(minor, rounds, saltb, bytes);
    FinishSplit(minor, rounds, saltb, bytes);
    ParseCut(minor, rounds, Base64.Encode(saltb, SaltLen).value, h[..|h| - 31]);
  }

  lemma ParseCut(minor: CodeUnit, rounds: Number, text: JsString, cut: JsString)
    requires minor == 0 || IsMinor(minor)
    requires rounds.Int? && !BadRounds(rounds)
    requires |text| == 22 && cut == Header(minor, rounds) + text
    ensures ParseSalt(cut) == Ok(Parsed(minor, |Header(minor, rounds)| - 3, rounds, text))
  {
    ParseHeader(minor, rounds, text);
    assert Substring(text, 0, 22) == text;
  }

  /** ... which decodes to the salt bytes. */
  lemma SaltBytesEncoded(p: Parsed, saltb: seq<int>)
    requires |saltb| == SaltLen && p.text == Base64.Encode(saltb, SaltLen).value
    ensures SaltBytes(p) == LowBytes(saltb)
  {
    Base64.DecodeEncode(saltb, SaltLen);
    assert saltb[..SaltLen] == saltb;
  }

  /** What `compare` relies on: hashing the same password again with the
      salt string cut from a hash (all but its last 31 characters) gives
      the same hash, whatever the slicing of either run. This holds for
      every hash with numeric rounds; with `NaN` rounds the cut salt fails
      the rounds check (`ParseHeaderNaN`). */
  lemma Rehash(k: Constants, s: JsString, salt: JsString, q1: nat -> nat, q2: nat -> nat)
    requires ConstantsOk(k) && Positive(q1) && Positive(q2)
    requires Hash(k, s, salt, q1).Ok? && ParseSalt(salt).Ok? && ParseSalt(salt).value.rounds.Int?
    ensures var h := Hash(k, s, salt, q1).value;
            |h| >= 31 && Hash(k, s, h[..|h| - 31], q2) == Ok(h)
  {
    var p, h := ParseSalt(salt).value, Hash(k, s, salt, q1).value;
    HashAssembled(k, s, salt, q1, p, h);
    RehashExpected(k, s, p.minor, p.rounds, SaltBytes(p), RefDigest(k, s, p), h, q2);
  }

  /** The reference digest for a parsed salt that `_crypt` accepts. */
  function RefDigest(k: Constants, s: JsString, p: Parsed): (d: seq<int>)
    requires ConstantsOk(k) && !BadRounds(p.rounds)
  {
    Bcrypt(k, PasswordBytes(s, p.minor), SaltBytes(p), ShiftCount(p.rounds))
  }

  /** A hash with numeric rounds is assembled by `finish` from its parsed
      salt and the reference digest. */
  lemma HashAssembled(k: Constants, s: JsString, salt: JsString, q: nat -> nat, p: Parsed, h: JsString)
    requires ConstantsOk(k) && Positive(q)
    requires ParseSalt(salt) == Ok(p) && p.rounds.Int? && Hash(k, s, salt, q) == Ok(h)
    ensures !BadRounds(p.rounds) && Assembled(p.minor, p.rounds, SaltBytes(p), RefDigest(k, s, p), h)
  {
    HashSpec(k, s, salt, q);
  }

  lemma RehashExpected(k: Constants, s: JsString, minor: CodeUnit, rounds: Number, saltb: seq<int>, d: seq<int>,
                       h: JsString, q: nat -> nat)
    requires ConstantsOk(k) && Positive(q)
    requires Assembled(minor, rounds, saltb, d, h)
    requires d == Bcrypt(k, PasswordBytes(s, minor), saltb, ShiftCount(rounds))
    ensures |h| >= 31 && Hash(k, s, h[..|h| - 31], q) == Ok(h)
  {
    CutParses(minor, rounds, saltb, d, h);
    HashAccepted(k, s, h[..|h| - 31], minor, rounds, saltb, d, q);
  }

  /** `h` is what `finish` assembles for a salt string that `finish`
      itself would write back unchanged: a minor version of the header,
      numeric rounds, 16 salt bytes and a 24-byte digest. */
  predicate Assembled(minor: CodeUnit, rounds: Number, saltb: seq<int>, d: seq<int>, h: JsString)
  {
    Shaped(minor, rounds, saltb, d) && h == Finish(minor, rounds, saltb, d)
  }

  /** The arguments of such a `finish` call. */
  predicate Shaped(minor: CodeUnit, rounds: Number, saltb: seq<int>, d: seq<int>)
  {
    (minor == 0 || IsMinor(minor)) && rounds.Int? && !BadRounds(rounds) && |saltb| == SaltLen && |d| == 24
  }

  /** A salt string that passes every check with the given minor version
      and rounds and decodes to the low bytes of `saltb`. */
  predicate Accepts(salt: JsString, minor: CodeUnit, rounds: Number, saltb: seq<int>)
  {
    && ParseSalt(salt).Ok?
    && ParseSalt(salt).value.minor == minor && ParseSalt(salt).value.rounds == rounds
    && SaltBytes(ParseSalt(salt).value) == LowBytes(saltb) && |saltb| == SaltLen && !BadRounds(rounds)
  }

  /** `Hash` on such a salt string. */
  lemma HashAccepted(k: Constants, s: JsString, salt: JsString, minor: CodeUnit, rounds: Number, saltb: seq<int>,
                     d: seq<int>, q: nat -> nat)
    requires ConstantsOk(k) && Positive(q) && Accepts(salt, minor, rounds, saltb)
    requires d == Bcrypt(k, PasswordBytes(s, minor), saltb, ShiftCount(rounds))
    ensures Hash(k, s, salt, q) == Ok(Finish(minor, rounds, saltb, d))
  {
    HashSpec(k, s, salt, q);
    ExpectedLow(k, minor, rounds, PasswordBytes(s, minor), saltb);
  }

  /** The salt string cut from a hash with numeric rounds passes the salt
      checks with the same minor version and rounds, and decodes to the
      salt bytes. */
  lemma CutParses(minor: CodeUnit, rounds: Number, saltb: seq<int>, d: seq<int>, h: JsString)
    requires Assembled(minor, rounds, saltb, d, h)
    ensures |h| >= 31 && Accepts(h[..|h| - 31], minor, rounds, saltb)
  {
    ParseFinish(minor, rounds, saltb, d);
    var p := Parsed(minor, |Header(minor, rounds)| - 3, rounds, Base64.Encode(saltb, SaltLen).value);
    SaltBytesEncoded(p, saltb);
  }

  /** `h` is what `finish` assembles from a minor version `hash` accepts,
      a round count `_crypt` accepts, 16 salt bytes and a 24-byte digest. */
  predicate Finished(minor: CodeUnit, rounds: Number, saltb: seq<int>, d: seq<int>, h: JsString)
  {
    (minor == 0 || IsMinor(minor)) && !BadRounds(rounds) && |saltb| == SaltLen && |d| == 24
    && h == Finish(minor, rounds, saltb, d)
  }

  /** Every hash `hash` returns, `NaN` rounds included, is assembled by
      `finish` from its parsed salt and the reference digest. */
  lemma HashFinished(k: Constants, s: JsString, salt: JsString, q: nat -> nat, p: Parsed, h: JsString)
    requires ConstantsOk(k) && Positive(q)
    requires ParseSalt(salt) == Ok(p) && Hash(k, s, salt, q) == Ok(h)
    ensures !BadRounds(p.rounds) && Finished(p.minor, p.rounds, SaltBytes(p), RefDigest(k, s, p), h)
  {
    HashSpec(k, s, salt, q);
    ParsedMinor(salt, p);
  }

  /** A hash with numeric rounds has the 60 characters `compareSync`
      insists on exactly when its minor version is not 0. */
  lemma HashSixty(k: Constants, s: JsString, salt: JsString, q: nat -> nat, p: Parsed, h: JsString)
    requires ConstantsOk(k) && Positive(q)
    requires ParseSalt(salt) == Ok(p) && p.rounds.Int? && Hash(k, s, salt, q) == Ok(h)
    ensures |h| == 60 <==> p.minor != 0
  {
    HashFinished(k, s, salt, q, p, h);
    FinishedSixty(p.minor, p.rounds, SaltBytes(p), RefDigest(k, s, p), h);
  }

  lemma FinishedSixty(minor: CodeUnit, rounds: Number, saltb: seq<int>, d: seq<int>, h: JsString)
    requires Finished(minor, rounds, saltb, d, h) && rounds.Int?
    ensures |h| == 60 <==> minor != 0
  {
    FinishedLength(minor, rounds, saltb, d, h);
  }

  /** The minor version of a salt that passes the checks is written back
      by `finish` exactly when it is not 0. */
  lemma ParsedMinor(salt: JsString, p: Parsed)
    requires ParseSalt(salt) == Ok(p)
    ensures p.minor == 0 || IsMinor(p.minor)
    ensures p.minor >= 'a' as int <==> p.minor != 0
  {
    assert RevisionOk(salt, p.minor, p.offset);
    MinorWritten(p.minor);
  }

  /** The length of every hash string `finish` assembles: 60 characters,
      one fewer for the minor version 0 ("$2$") and one more for `NaN`
      rounds. */
  lemma FinishedLength(minor: CodeUnit, rounds: Number, saltb: seq<int>, d: seq<int>, h: JsString)
    requires Finished(minor, rounds, saltb, d, h)
    ensures |h| == 59 + (if minor != 0 then 1 else 0) + (if rounds.NaN? then 1 else 0)
  {
    MinorWritten(minor);
  }

  /** `finish` writes the minor version exactly when it is not 0. */
  lemma MinorWritten(minor: CodeUnit)
    requires minor == 0 || IsMinor(minor)
    ensures minor >= 'a' as int <==> minor != 0
  {
  }

  // ---------------------------------------------------------------------
  // The 72-byte limit

  /** A string of ASCII characters (below 0x80). */
  predicate Ascii(s: JsString)
  {
    forall k | 0 <= k < |s| :: s[k] < 0x80
  }

  /** For ASCII passwords the bytes `_crypt` hashes are the characters
      themselves, with the NUL of the minor versions a, b and y. */
  lemma PasswordAscii(s: JsString, minor: CodeUnit)
    requires Ascii(s)
    ensures PasswordBytes(s, minor) == s + (if minor >= 'a' as int then [0] else [])
  {
    var t := s + (if minor >= 'a' as int then [0] else []);
    assert Ascii(t);
    Utf8.AsciiUtf8ArrayFrom(t, 0);
  }

  /** An ASCII password of at least 72 characters keeps them as its
      first 72 password bytes. */
  lemma PasswordPrefix72(s: JsString, minor: CodeUnit)
    requires Ascii(s) && |s| >= 72
    ensures |PasswordBytes(s, minor)| >= 72 && PasswordBytes(s, minor)[..72] == s[..72]
  {
    PasswordAscii(s, minor);
  }

  /** Byte sequences that share their first 72 elements share their first
      72 masked bytes. */
  lemma MaskedPrefix72(b1: seq<int>, b2: seq<int>)
    requires |b1| >= 72 && |b2| >= 72 && b1[..72] == b2[..72]
    ensures SamePrefix72(Masked(b1), Masked(b2))
  {
    var m1, m2 := Masked(b1), Masked(b2);
    forall i | 0 <= i < 72
      ensures m1[i] == m2[i]
    {
      assert b1[i] == b1[..72][i] == b2[..72][i] == b2[i];
    }
    assert m1[..72] == m2[..72];
  }

  /** The masked password bytes of two ASCII passwords that agree on their
      first 72 characters share their first 72 bytes. */
  lemma AsciiPrefix72(s1: JsString, s2: JsString, minor: CodeUnit)
    requires Ascii(s1) && Ascii(s2) && |s1| >= 72 && |s2| >= 72 && s1[..72] == s2[..72]
    ensures SamePrefix72(Masked(PasswordBytes(s1, minor)), Masked(PasswordBytes(s2, minor)))
  {
    PasswordPrefix72(s1, minor);
    PasswordPrefix72(s2, minor);
    MaskedPrefix72(PasswordBytes(s1, minor), PasswordBytes(s2, minor));
  }

  lemma RefDigestPrefix72(k: Constants, s1: JsString, s2: JsString, p: Parsed)
    requires ConstantsOk(k) && !BadRounds(p.rounds)
    requires Ascii(s1) && Ascii(s2) && |s1| >= 72 && |s2| >= 72 && s1[..72] == s2[..72]
    ensures RefDigest(k, s1, p) == RefDigest(k, s2, p)
  {
    AsciiPrefix72(s1, s2, p.minor);
    BcryptPrefix72(k, PasswordBytes(s1, p.minor), PasswordBytes(s2, p.minor), SaltBytes(p), ShiftCount(p.rounds));
  }

  /** `_crypt` reads at most 72 bytes of the password: ASCII passwords
      that agree on their first 72 characters hash alike under any salt. */
  lemma HashPrefix72(k: Constants, s1: JsString, s2: JsString, salt: JsString, q: nat -> nat)
    requires ConstantsOk(k) && Positive(q)
    requires Ascii(s1) && Ascii(s2) && |s1| >= 72 && |s2| >= 72 && s1[..72] == s2[..72]
    ensures Hash(k, s1, salt, q) == Hash(k, s2, salt, q)
  {
    HashSpec(k, s1, salt, q);
    HashSpec(k, s2, salt, q);
    if ParseSalt(salt).Ok? && !BadRounds(ParseSalt(salt).value.rounds) {
      RefDigestPrefix72(k, s1, s2, ParseSalt(salt).value);
    }
  }

  // ---------------------------------------------------------------------
  // Rounds that are not a number

  /** "$2a$$$$" followed by an encoded salt `e`: no digits in the rounds
      field, and '$' after it. */
  function NaNSalt(e: JsString): (salt: JsString)
    ensures |salt| == 7 + |e| && salt[7..] == e
  {
    var prefix: JsString := ['$' as int, '2' as int, 'a' as int, '$' as int, '$' as int, '$' as int, '$' as int];
    prefix + e
  }

  /** Such a salt passes the checks of `hash` with `NaN` rounds. */
  lemma NaNSaltParses(e: JsString)
    requires |e| == 22
    ensures ParseSalt(NaNSalt(e)) == Ok(Parsed('a' as int, 4, NaN, e))
  {
    var salt := NaNSalt(e);
    assert salt[..7] == ['$' as int, '2' as int, 'a' as int, '$' as int, '$' as int, '$' as int, '$' as int];
    assert Substring(salt, 7, 29) == e;
  }

  /** Both digits of the rounds field parse to `NaN`, `NaN` passes the
      range check of `_crypt`, and `1 << NaN` is 1: the password is hashed
      with one round of the expensive key schedule (cost 0), and the result
      carries "NaN" as its rounds field (61 characters, by the contract
      of `Finish`). */
  lemma NaNRounds(k: Constants, s: JsString, b: seq<int>, e: JsString, q: nat -> nat)
    requires ConstantsOk(k) && Positive(q) && |b| == SaltLen && e == Base64.Encode(b, SaltLen).value
    ensures ShiftCount(NaN) == 0
    ensures Hash(k, s, NaNSalt(e), q) == Ok(Expected(k, 'a' as int, NaN, PasswordBytes(s, 'a' as int), LowBytes(b)))
  {
    HashSpec(k, s, NaNSalt(e), q);
    NaNSaltParses(e);
    SaltBytesEncoded(Parsed('a' as int, 4, NaN, e), b);
  }
}
