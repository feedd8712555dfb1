/**
 * The public synchronous API of src/bcrypt.js: `genSaltSync`, `hashSync`,
 * `compareSync`, `getRounds` and `getSalt`.
 *
 * The arguments of these functions are untyped JavaScript values; the
 * model distinguishes what their `typeof` checks distinguish. The random
 * bytes `random(BCRYPT_SALT_LEN)` returns are a parameter, and so is the
 * schedule `quota` that stands for the clock slicing the rounds.
 */
module Api {
  import opened Js
  import Base64
  import Impl
  import opened Slicing
  import opened Crypt

  /** GENSALT_DEFAULT_LOG2_ROUNDS: the cost `genSaltSync` and `hashSync`
      use when none is given. */
  const DefaultRounds: int := 10

  /** A JavaScript argument as far as the `typeof` checks of the API see
      it: `undefined`, a number, a string, or anything else. */
  datatype Value = Undefined | Num(n: Number) | Text(s: JsString) | Other

  // ---------------------------------------------------------------------
  // genSaltSync

  /** The first four characters of every generated salt. */
  const SaltPrefix: JsString := ['$' as int, '2' as int, 'a' as int, '$' as int]

  /** `genSaltSync(rounds)`, where `random` is what `random(16)` returned:
      a missing cost becomes 10, anything but a number is rejected, a cost
      outside [4, 31] is rejected (`NaN` is not), and the salt is "$2a$",
      the zero-padded cost, "$" and 22 characters for the 16 random bytes.
      Fewer than 16 random values make `base64.encode` throw. */
  function GenSaltSync(rounds: Value, random: seq<int>): (r: Result<JsString>)
    ensures !(rounds.Undefined? || rounds.Num?) ==> r == Err(IllegalArguments)
    ensures rounds.Num? && BadRounds(rounds.n) ==> r == Err(IllegalRounds)
    ensures (rounds.Undefined? || (rounds.Num? && !BadRounds(rounds.n)))
            ==> (r.Err? <==> |random| < SaltLen) && (r.Err? ==> r.error == IllegalLen)
    ensures r.Ok? ==> |r.value| == 29 + (if rounds.Num? && rounds.n.NaN? then 1 else 0)
  {
    if !(rounds.Undefined? || rounds.Num?) then Err(IllegalArguments)
    else
      var n := if rounds.Undefined? then Int(DefaultRounds) else rounds.n;
      if BadRounds(n) then Err(IllegalRounds)
      else
        var e :- Base64.Encode(random, SaltLen);
        Ok(SaltPrefix + SaltTail(n, e))
  }

  /** The zero-padded cost, "$" and the encoded salt. */
  function SaltTail(n: Number, e: JsString): (t: JsString)
    requires !BadRounds(n)
    ensures |t| == |Impl.RoundsText(n)| + 1 + |e|
  {
    Impl.RoundsText(n) + ['$' as int] + e
  }

  /** The cost a valid `rounds` argument of `genSaltSync` stands for. */
  function CostOf(rounds: Value): (n: Number)
    requires rounds.Undefined? || rounds.Num?
  {
    if rounds.Undefined? then Int(DefaultRounds) else rounds.n
  }

  /** A generated salt is the header `finish` writes for minor version 'a'
      followed by the encoded random bytes. */
  lemma GenSaltHeader(rounds: Value, random: seq<int>)
    requires rounds.Undefined? || (rounds.Num? && !BadRounds(rounds.n))
    requires |random| >= SaltLen
    ensures GenSaltSync(rounds, random)
            == Ok(Impl.Header('a' as int, CostOf(rounds)) + Base64.Encode(random, SaltLen).value)
  {
    SaltHeader(CostOf(rounds), Base64.Encode(random, SaltLen).value);
  }

  lemma SaltHeader(n: Number, e: JsString)
    requires !BadRounds(n)
    ensures SaltPrefix + SaltTail(n, e) == Impl.Header('a' as int, n) + e
  {
    var rt := Impl.RoundsText(n);
    assert ['$' as int, '2' as int] + ['a' as int] + ['$' as int] == SaltPrefix;
    assert Impl.Header('a' as int, n) == SaltPrefix + rt + ['$' as int];
  }

  /** Generating and checking agree: a generated salt with a numeric cost
      passes the salt checks of `hash` with minor version 'a', that cost,
      and the encoded random bytes as salt text, which decode back to the
      low bytes of the first 16 random values. A salt generated for `NaN`
      fails them with "Missing salt rounds". */
  lemma GenSaltParses(rounds: Value, random: seq<int>)
    requires rounds.Undefined? || (rounds.Num? && !BadRounds(rounds.n))
    requires |random| >= SaltLen
    ensures var e := Base64.Encode(random, SaltLen).value;
            var p := Impl.Parsed('a' as int, 4, CostOf(rounds), e);
            CostOf(rounds).Int? ==> Impl.ParseSalt(GenSaltSync(rounds, random).value) == Ok(p)
    ensures CostOf(rounds).NaN? ==> Impl.ParseSalt(GenSaltSync(rounds, random).value) == Err(MissingSaltRounds)
  {
    var n := CostOf(rounds);
    var e := Base64.Encode(random, SaltLen).value;
    GenSaltHeader(rounds, random);
    if n.Int? {
      Impl.ParseHeader('a' as int, n, e);
      assert Substring(e, 0, 22) == e;
    } else {
      Impl.ParseHeaderNaN('a' as int, e);
    }
  }

  // ---------------------------------------------------------------------
  // hashSync

  /** What `hashSync` makes of its salt argument before its type check:
      a missing salt becomes the cost 10, and a number becomes a salt
      generated by `genSaltSync`, whose errors propagate. */
  function SaltArgument(salt: Value, random: seq<int>): Result<Value>
  {
    var salt1 := if salt.Undefined? then Num(Int(DefaultRounds)) else salt;
    if salt1.Num? then
      match GenSaltSync(salt1, random) {
        case Ok(g) => Ok(Text(g))
        case Err(e) => Err(e)
      }
    else Ok(salt1)
  }

  /** A missing or numeric salt argument is replaced by what `genSaltSync`
      makes of it, which is how `genSaltSync` itself treats a missing
      cost. */
  lemma SaltArgumentCases(salt: Value, random: seq<int>)
    ensures (salt.Undefined? || salt.Num?) ==>
              SaltArgument(salt, random)
              == match GenSaltSync(salt, random) { case Ok(g) => Ok(Text(g)) case Err(e) => Err(e) }
    ensures !(salt.Undefined? || salt.Num?) ==> SaltArgument(salt, random) == Ok(salt)
  {
  }

  /** `hashSync(s, salt)`: the salt argument, the check that both
      arguments are strings, then `hash`. A missing or numeric salt is
      generated first, and an error of `genSaltSync` wins over the type
      check of `s`. */
  function HashSync(k: Constants, s: Value, salt: Value, random: seq<int>, quota: nat -> nat): (r: Result<JsString>)
    requires ConstantsOk(k) && Positive(quota)
    ensures r.Ok? ==> s.Text? && !salt.Other?
    ensures salt.Other? ==> r == Err(IllegalArguments)
    ensures salt.Text? && !s.Text? ==> r == Err(IllegalArguments)
    ensures !s.Text? ==> r.Err?
    ensures s.Text? && salt.Text? ==> r == Impl.Hash(k, s.s, salt.s, quota)
    ensures (salt.Undefined? || salt.Num?) ==>
              r == match GenSaltSync(salt, random) {
                     case Err(e) => Err(e)
                     case Ok(g) => if s.Text? then Impl.Hash(k, s.s, g, quota) else Err(IllegalArguments)
                   }
  {
    SaltArgumentCases(salt, random);
    var salt' :- SaltArgument(salt, random);
    if !(s.Text? && salt'.Text?) then Err(IllegalArguments)
    else Impl.Hash(k, s.s, salt'.s, quota)
  }

  /** `hashSync(s, NaN)` generates the salt "$2a$NaN$..." (`NaN` passes
      the range check of `genSaltSync`), which `hash` then rejects. */
  lemma HashSyncNaN(k: Constants, s: JsString, random: seq<int>, q: nat -> nat)
    requires ConstantsOk(k) && Positive(q) && |random| >= SaltLen
    ensures HashSync(k, Text(s), Num(NaN), random, q) == Err(MissingSaltRounds)
  {
    SaltArgumentCases(Num(NaN), random);
    GenSaltParses(Num(NaN), random);
    Impl.HashSpec(k, s, GenSaltSync(Num(NaN), random).value, q);
  }

  /** The round trip of the API: a hash that `hashSync` made with a
      generated salt matches its password under `compareSync`, however
      either run was sliced; `getRounds` reads back the cost and `getSalt`
      the generated salt. */
  lemma HashSyncGenerated(k: Constants, s: JsString, salt: Value, random: seq<int>, q1: nat -> nat, q2: nat -> nat)
    requires ConstantsOk(k) && Positive(q1) && Positive(q2)
    requires salt.Undefined? || salt.Num?
    requires HashSync(k, Text(s), salt, random, q1).Ok?
    ensures GenSaltSync(salt, random).Ok? && CostOf(salt).Int?
    ensures var h := HashSync(k, Text(s), salt, random, q1).value;
            && Compare(k, Text(s), Text(h), q2) == Ok(true)
            && GetRounds(Text(h)) == Ok(CostOf(salt))
            && GetSalt(Text(h)) == GenSaltSync(salt, random)
  {
    SaltArgumentCases(salt, random);
    var g := GenSaltSync(salt, random).value;
    GenSaltParses(salt, random);
    Impl.HashSpec(k, s, g, q1);
    CompareHash(k, s, g, q1, q2);
    GetRoundsHash(k, s, g, q1);
    GeneratedSalt(k, s, salt, random, q1);
  }

  /** The first 29 characters of a hash made with a generated salt are
      that salt. */
  lemma GeneratedSalt(k: Constants, s: JsString, salt: Value, random: seq<int>, q: nat -> nat)
    requires ConstantsOk(k) && Positive(q)
    requires salt.Undefined? || (salt.Num? && !BadRounds(salt.n))
    requires |random| >= SaltLen && CostOf(salt).Int?
    requires Impl.Hash(k, s, GenSaltSync(salt, random).value, q).Ok?
    ensures var h := Impl.Hash(k, s, GenSaltSync(salt, random).value, q).value;
            |h| == 60 && h[..29] == GenSaltSync(salt, random).value
  {
    var g := GenSaltSync(salt, random).value;
    var e := Base64.Encode(random, SaltLen).value;
    var h := Impl.Hash(k, s, g, q).value;
    GenSaltParses(salt, random);
    var p := Impl.ParseSalt(g).value;
    Impl.HashFinished(k, s, g, q, p, h);
    Impl.HashSixty(k, s, g, q, p, h);
    Impl.FinishSplit('a' as int, p.rounds, Impl.SaltBytes(p), Impl.RefDigest(k, s, p));
    GenSaltBytes(random, e, p);
    GenSaltHeader(salt, random);
  }

  /** The salt bytes a generated salt decodes to encode back to the same
      22 characters. */
  lemma GenSaltBytes(random: seq<int>, e: JsString, p: Impl.Parsed)
    requires |random| >= SaltLen && e == Base64.Encode(random, SaltLen).value && p.text == e
    ensures Base64.Encode(Impl.SaltBytes(p), SaltLen) == Ok(e)
  {
    var r := random[..SaltLen];
    Base64.EncodeLow(r, random, SaltLen);
    Impl.SaltBytesEncoded(p, r);
    Base64.EncodeLow(LowBytes(r), r, SaltLen);
  }

  // ---------------------------------------------------------------------
  // compareSync

  /** The comparison loop of `compareSync`: it looks at every position up
      to the shorter length, without stopping at the first difference, and
      its verdict is plain string equality. */
  method SameString(comp: JsString, hash: JsString) returns (same: bool)
    ensures same <==> comp == hash
  {
    same := |comp| == |hash|;
    var maxLength := if |comp| < |hash| then |comp| else |hash|;
    var i := 0;
    while i < maxLength
      invariant 0 <= i <= maxLength
      invariant same <==> |comp| == |hash| && comp[..i] == hash[..i]
    {
      if |comp| >= i && |hash| >= i && comp[i] != hash[i] {
        same := false;
      }
      i := i + 1;
    }
    assert same ==> comp == comp[..i] && hash == hash[..i];
  }

  /** `compareSync(s, hash)` as a value: both arguments must be strings, a
      hash of any length but 60 never matches, otherwise the password is
      hashed again with all but the last 31 characters of the hash as salt
      and the results are compared. */
  function Compare(k: Constants, s: Value, hash: Value, quota: nat -> nat): (r: Result<bool>)
    requires ConstantsOk(k) && Positive(quota)
  {
    if !(s.Text? && hash.Text?) then Err(IllegalArguments)
    else if |hash.s| != 60 then Ok(false)
    else
      var comp :- HashSync(k, s, Text(hash.s[..|hash.s| - 31]), [], quota);
      Ok(comp == hash.s)
  }

  /** `compareSync` with its comparison loop. */
  method CompareSync(k: Constants, s: Value, hash: Value, quota: nat -> nat) returns (r: Result<bool>)
    requires ConstantsOk(k) && Positive(quota)
    ensures r == Compare(k, s, hash, quota)
  {
    if !(s.Text? && hash.Text?) {
      return Err(IllegalArguments);
    }
    if |hash.s| != 60 {
      return Ok(false);
    }
    var comp := HashSync(k, s, Text(hash.s[..|hash.s| - 31]), [], quota);
    if comp.Err? {
      return Err(comp.error);
    }
    var same := SameString(comp.value, hash.s);
    return Ok(same);
  }

  /** `compareSync` on a 60-character hash is `hash` of the password with
      the first 29 characters of the hash as salt, compared with the hash;
      errors of `hash` propagate. */
  lemma CompareSixty(k: Constants, s: JsString, h: JsString, q: nat -> nat)
    requires ConstantsOk(k) && Positive(q) && |h| == 60
    ensures Compare(k, Text(s), Text(h), q)
            == match Impl.Hash(k, s, h[..29], q) { case Ok(c) => Ok(c == h) case Err(e) => Err(e) }
  {
  }

  /** The promise of `compareSync`: a password matches every hash that
      `hash` made of it with a salt of numeric rounds and a minor version
      a, b or y, however either run was sliced. */
  lemma CompareHash(k: Constants, s: JsString, salt: JsString, q1: nat -> nat, q2: nat -> nat)
    requires ConstantsOk(k) && Positive(q1) && Positive(q2)
    requires Impl.Hash(k, s, salt, q1).Ok? && Impl.ParseSalt(salt).Ok? && Impl.ParseSalt(salt).value.rounds.Int?
    ensures Compare(k, Text(s), Text(Impl.Hash(k, s, salt, q1).value), q2) == Ok(Impl.ParseSalt(salt).value.minor != 0)
  {
    var p, h := Impl.ParseSalt(salt).value, Impl.Hash(k, s, salt, q1).value;
    Impl.HashSixty(k, s, salt, q1, p, h);
    if |h| == 60 {
      CompareRehash(k, s, salt, q1, q2, h);
    } else {
      CompareShort(k, s, h, q2);
    }
  }

  /** A 60-character result of `hash` matches its own password. */
  lemma CompareRehash(k: Constants, s: JsString, salt: JsString, q1: nat -> nat, q2: nat -> nat, h: JsString)
    requires ConstantsOk(k) && Positive(q1) && Positive(q2)
    requires Impl.ParseSalt(salt).Ok? && Impl.ParseSalt(salt).value.rounds.Int?
    requires Impl.Hash(k, s, salt, q1) == Ok(h) && |h| == 60
    ensures Compare(k, Text(s), Text(h), q2) == Ok(true)
  {
    Impl.Rehash(k, s, salt, q1, q2);
    CompareSixty(k, s, h, q2);
  }

  /** A hash of any other length matches nothing. */
  lemma CompareShort(k: Constants, s: JsString, h: JsString, q: nat -> nat)
    requires ConstantsOk(k) && Positive(q) && |h| != 60
    ensures Compare(k, Text(s), Text(h), q) == Ok(false)
  {
  }

  // ---------------------------------------------------------------------
  // getRounds

  /** `s.split(c)`: the pieces between the occurrences of `c`; a string
      without `c` is one piece, the empty string included. */
  function Split(s: JsString, c: CodeUnit): (r: seq<JsString>)
    ensures |r| >= 1
    decreases |s|
  {
    if |s| == 0 then [[]]
    else
      var rest := Split(s[1..], c);
      if s[0] == c then [[]] + rest else [[s[0]] + rest[0]] + rest[1..]
  }

  /** `parts.join(c)`, the inverse of `Split`. */
  function Join(parts: seq<JsString>, c: CodeUnit): JsString
    requires |parts| >= 1
    decreases |parts|
  {
    if |parts| == 1 then parts[0] else parts[0] + [c] + Join(parts[1..], c)
  }

  /** True when `c` does not occur in `s`. */
  predicate Free(s: JsString, c: CodeUnit)
  {
    forall i | 0 <= i < |s| :: s[i] != c
  }

  /** Splitting loses nothing and finds every separator: the pieces hold no
      separator and joining them gives the string back. */
  lemma {:induction false} JoinSplit(s: JsString, c: CodeUnit)
    ensures forall i | 0 <= i < |Split(s, c)| :: Free(Split(s, c)[i], c)
    ensures Join(Split(s, c), c) == s
    decreases |s|
  {
    if |s| > 0 {
      var rest := Split(s[1..], c);
      JoinSplit(s[1..], c);
      if s[0] == c {
        assert Split(s, c)[1..] == rest;
      } else {
        var r := Split(s, c);
        assert r[0] == [s[0]] + rest[0] && r[1..] == rest[1..];
        if |rest| == 1 {
          assert Join(r, c) == [s[0]] + rest[0];
        } else {
          assert Join(r, c) == [s[0]] + rest[0] + [c] + Join(rest[1..], c);
        }
        assert s == [s[0]] + s[1..];
        forall i | 0 <= i < |r|
          ensures Free(r[i], c)
        {
          if i > 0 {
            assert r[i] == rest[i];
          }
        }
      }
    }
  }

  /** A string without the separator is a single piece. */
  lemma {:induction false} SplitFree(a: JsString, c: CodeUnit)
    requires Free(a, c)
    ensures Split(a, c) == [a]
    decreases |a|
  {
    if |a| > 0 {
      SplitFree(a[1..], c);
      assert [a[0]] + a[1..] == a;
    }
  }

  /** A separator-free prefix followed by the separator is the first piece. */
  lemma {:induction false} SplitAfter(a: JsString, c: CodeUnit, b: JsString)
    requires Free(a, c)
    ensures Split(a + [c] + b, c) == [a] + Split(b, c)
    decreases |a|
  {
    var s := a + [c] + b;
    if |a| == 0 {
      assert s[1..] == b;
    } else {
      SplitAfter(a[1..], c, b);
      assert s[1..] == a[1..] + [c] + b;
      assert [a[0]] + a[1..] == a;
    }
  }

  /** `WhiteSpace` and `LineTerminator` code units of ECMAScript, which
      `parseInt` skips at the start of its argument. */
  predicate IsSpace(c: CodeUnit)
  {
    c == 0x09 || c == 0x0A || c == 0x0B || c == 0x0C || c == 0x0D || c == 0x20 || c == 0xA0
    || c == 0x1680 || 0x2000 <= c <= 0x200A || c == 0x2028 || c == 0x2029 || c == 0x202F
    || c == 0x205F || c == 0x3000 || c == 0xFEFF
  }

  predicate IsDigit(c: CodeUnit)
  {
    '0' as int <= c <= '9' as int
  }

  /** `s` without its leading white space. */
  function TrimStart(s: JsString): (t: JsString)
    ensures |t| <= |s| && t == s[|s| - |t|..]
    ensures forall i | 0 <= i < |s| - |t| :: IsSpace(s[i])
    ensures |t| > 0 ==> !IsSpace(t[0])
    decreases |s|
  {
    if |s| > 0 && IsSpace(s[0]) then TrimStart(s[1..]) else s
  }

  /** The number of decimal digits `s` starts with. */
  function DigitRun(s: JsString): (n: nat)
    ensures n <= |s|
    ensures forall i | 0 <= i < n :: IsDigit(s[i])
    ensures n < |s| ==> !IsDigit(s[n])
    decreases |s|
  {
    if |s| > 0 && IsDigit(s[0]) then 1 + DigitRun(s[1..]) else 0
  }

  /** The value of a string of decimal digits, most significant first. */
  function DigitsValue(ds: JsString): (v: nat)
    requires forall i | 0 <= i < |ds| :: IsDigit(ds[i])
    decreases |ds|
  {
    if |ds| == 0 then 0
    else
      assert IsDigit(ds[|ds| - 1]);
      10 * DigitsValue(ds[..|ds| - 1]) + (ds[|ds| - 1] - '0' as int)
  }

  /** `parseInt(s, 10)`: skip white space, take one sign, then the longest
      run of decimal digits; no digit at all gives `NaN`. */
  function ParseInt(s: JsString): (r: Number)
  {
    ParseTrimmed(TrimStart(s))
  }

  /** `parseInt` after the white space. */
  function ParseTrimmed(t: JsString): (r: Number)
  {
    var signed := |t| > 0 && (t[0] == '-' as int || t[0] == '+' as int);
    var u := if signed then t[1..] else t;
    var d := DigitRun(u);
    if d == 0 then NaN
    else
      var v: int := DigitsValue(u[..d]);
      if signed && t[0] == '-' as int then Int(-v) else Int(v)
  }

  /** The digit run of digits followed by a non-digit is the digits. */
  lemma {:induction false} DigitRunPrefix(ds: JsString, rest: JsString)
    requires forall i | 0 <= i < |ds| :: IsDigit(ds[i])
    requires |rest| == 0 || !IsDigit(rest[0])
    ensures DigitRun(ds + rest) == |ds|
    decreases |ds|
  {
    if |ds| > 0 {
      DigitRunPrefix(ds[1..], rest);
      assert (ds + rest)[1..] == ds[1..] + rest;
    } else {
      assert ds + rest == rest;
    }
  }

  /** White-space trimming stops at a digit. */
  lemma TrimDigit(s: JsString, c: CodeUnit)
    requires |s| > 0 && s[0] == c && IsDigit(c)
    ensures TrimStart(s) == s
  {
    assert !IsSpace(s[0]);
  }

  /** `parseInt` reads a run of digits up to the first non-digit. */
  lemma ParseIntDigits(ds: JsString, rest: JsString)
    requires |ds| >= 1 && forall i | 0 <= i < |ds| :: IsDigit(ds[i])
    requires |rest| == 0 || !IsDigit(rest[0])
    ensures ParseInt(ds + rest) == Int(DigitsValue(ds))
  {
    var s := ds + rest;
    TrimDigit(s, ds[0]);
    DigitRunPrefix(ds, rest);
    ParseTrimmedDigit(s);
    assert s[..|ds|] == ds;
  }

  /** Without white space and sign, `parseInt` is the value of the digit run. */
  lemma ParseTrimmedDigit(t: JsString)
    requires |t| > 0 && IsDigit(t[0])
    ensures ParseTrimmed(t) == Int(DigitsValue(t[..DigitRun(t)]))
  {
  }

  /** `parseInt` of a text without any digit at the start, such as "NaN"
      or "undefined", is `NaN`. */
  lemma ParseIntNoDigit(s: JsString)
    requires |s| >= 1 && !IsSpace(s[0]) && !IsDigit(s[0]) && s[0] != '-' as int && s[0] != '+' as int
    ensures ParseInt(s) == NaN
  {
  }

  /** `getRounds(hash)`: `parseInt` of the third `$`-separated piece, or of
      "undefined" (`NaN`) when there are fewer than three. */
  function GetRounds(hash: Value): (r: Result<Number>)
    ensures !hash.Text? <==> r == Err(IllegalArguments)
  {
    if !hash.Text? then Err(IllegalArguments)
    else
      var parts := Split(hash.s, '$' as int);
      Ok(ParseInt(if |parts| > 2 then parts[2] else Str("undefined")))
  }

  /** No character `base64.encode` writes is '$'. */
  lemma EncodedFree(b: seq<int>, n: int, e: JsString)
    requires 0 < n <= |b| && e == Base64.Encode(b, n).value
    ensures Free(e, '$' as int)
  {
    Base64.EncodeAlphabet(b, n);
    Base64.LookupIs('$' as int);
    forall i | 0 <= i < |e|
      ensures e[i] != '$' as int
    {
      assert Base64.InAlphabet(e[i]);
    }
  }

  /** The rounds field `finish` writes holds no '$'; a numeric one is two
      digits whose value is the round count. */
  lemma RoundsDigits(rounds: Number)
    requires !BadRounds(rounds)
    ensures Free(Impl.RoundsText(rounds), '$' as int)
    ensures rounds.Int? ==> (forall i | 0 <= i < 2 :: IsDigit(Impl.RoundsText(rounds)[i]))
                            && DigitsValue(Impl.RoundsText(rounds)) == rounds.v
  {
    var t := Impl.RoundsText(rounds);
    if rounds.Int? {
      var v := rounds.v;
      assert t == ['0' as int + v / 10, '0' as int + v % 10];
      assert DigitsValue(t[..1]) == v / 10 by {
        assert t[..1][..0] == [];
      }
      assert DigitsValue(t) == 10 * (v / 10) + v % 10;
    }
  }

  /** The third piece of a header `finish` writes, split at '$', is its
      rounds field. */
  lemma SplitHeader(minor: CodeUnit, rounds: Number, rest: JsString)
    requires (minor == 0 || Impl.IsMinor(minor)) && !BadRounds(rounds) && Free(rest, '$' as int)
    ensures var parts := Split(Impl.Header(minor, rounds) + rest, '$' as int);
            |parts| > 2 && parts[2] == Impl.RoundsText(rounds)
  {
    var b: JsString := if minor >= 'a' as int then ['2' as int, minor] else ['2' as int];
    var rt := Impl.RoundsText(rounds);
    var d: JsString := ['$' as int];
    var e: JsString := [];
    RoundsDigits(rounds);
    HeaderPieces(minor, rounds, rest, b);
    SplitAfter(e, '$' as int, b + d + (rt + d + rest));
    SplitAfter(b, '$' as int, rt + d + rest);
    SplitAfter(rt, '$' as int, rest);
  }

  /** The header is '$', the version, '$', the rounds and '$'. */
  lemma HeaderPieces(minor: CodeUnit, rounds: Number, rest: JsString, b: JsString)
    requires !BadRounds(rounds)
    requires b == if minor >= 'a' as int then ['2' as int, minor] else ['2' as int]
    ensures Impl.Header(minor, rounds) + rest
         == [] + ['$' as int] + (b + ['$' as int] + (Impl.RoundsText(rounds) + ['$' as int] + rest))
  {
  }

  /** `getRounds` reads back the round count of every header `finish`
      writes, `NaN` included, whatever text without '$' follows. */
  lemma GetRoundsHeader(minor: CodeUnit, rounds: Number, e1: JsString, e2: JsString)
    requires (minor == 0 || Impl.IsMinor(minor)) && !BadRounds(rounds)
    requires Free(e1, '$' as int) && Free(e2, '$' as int)
    ensures GetRounds(Text(Impl.Header(minor, rounds) + e1 + e2)) == Ok(rounds)
  {
    var rt := Impl.RoundsText(rounds);
    FreeConcat(e1, e2, '$' as int);
    assert Impl.Header(minor, rounds) + e1 + e2 == Impl.Header(minor, rounds) + (e1 + e2);
    SplitHeader(minor, rounds, e1 + e2);
    RoundsDigits(rounds);
    if rounds.Int? {
      ParseIntDigits(rt, []);
      assert rt + [] == rt;
    } else {
      ParseIntNoDigit(rt);
    }
  }

  lemma FreeConcat(a: JsString, b: JsString, c: CodeUnit)
    requires Free(a, c) && Free(b, c)
    ensures Free(a + b, c)
  {
    forall i | 0 <= i < |a + b|
      ensures (a + b)[i] != c
    {
      if i >= |a| {
        assert (a + b)[i] == b[i - |a|];
      }
    }
  }

  /** ... and so of every hash string `finish` assembles. */
  lemma GetRoundsFinished(minor: CodeUnit, rounds: Number, saltb: seq<int>, d: seq<int>, h: JsString)
    requires Impl.Finished(minor, rounds, saltb, d, h)
    ensures GetRounds(Text(h)) == Ok(rounds)
  {
    var e1, e2 := Base64.Encode(saltb, SaltLen).value, Base64.Encode(d, 23).value;
    EncodedFree(saltb, SaltLen, e1);
    EncodedFree(d, 23, e2);
    GetRoundsHeader(minor, rounds, e1, e2);
  }

  /** `getRounds` of a hash that `hash` returned is the round count of the
      salt it was given. */
  lemma GetRoundsHash(k: Constants, s: JsString, salt: JsString, q: nat -> nat)
    requires ConstantsOk(k) && Positive(q) && Impl.Hash(k, s, salt, q).Ok?
    ensures Impl.ParseSalt(salt).Ok?
    ensures GetRounds(Text(Impl.Hash(k, s, salt, q).value)) == Ok(Impl.ParseSalt(salt).value.rounds)
  {
    Impl.HashSpec(k, s, salt, q);
    var p, h := Impl.ParseSalt(salt).value, Impl.Hash(k, s, salt, q).value;
    Impl.HashFinished(k, s, salt, q, p, h);
    GetRoundsFinished(p.minor, p.rounds, Impl.SaltBytes(p), Impl.RefDigest(k, s, p), h);
  }

  // ---------------------------------------------------------------------
  // getSalt

  /** `getSalt(hash)`: the first 29 characters of a 60-character string. */
  function GetSalt(hash: Value): (r: Result<JsString>)
    ensures !hash.Text? ==> r == Err(IllegalArguments)
    ensures hash.Text? && |hash.s| != 60 ==> r == Err(IllegalHashLength)
    ensures r.Ok? ==> |hash.s| == 60 && |r.value| == 29 && hash.s == r.value + hash.s[29..]
  {
    if !hash.Text? then Err(IllegalArguments)
    else if |hash.s| != 60 then Err(IllegalHashLength)
    else Ok(hash.s[..29])
  }
}
