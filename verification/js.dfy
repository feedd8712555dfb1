/**
 * JavaScript values as the bcrypt engine sees them.
 *
 * A JavaScript string is a sequence of UTF-16 code units; Dafny's `char` is a
 * Unicode scalar value and cannot hold a lone surrogate, so strings are
 * modelled as sequences of integers in [0, 0xFFFF]. Byte arrays are plain
 * JavaScript arrays of numbers; wherever the engine reads them it masks with
 * `& 0xff`, which `Low8` models.
 */
module Js {

  /** One UTF-16 code unit, what `String.prototype.charCodeAt` returns. */
  type CodeUnit = c: int | 0 <= c < 0x1_0000

  /** A JavaScript string. */
  type JsString = seq<CodeUnit>

  /** A byte value as produced by `x & 0xff`. */
  type Byte = b: int | 0 <= b < 0x100

  /** The errors the engine throws; the message texts are not modelled. */
  datatype Error =
    | IllegalLen           // base64: "Invalid 'len'" / "Illegal 'len'"
    | IllegalCodePoint     // utf8: RangeError "Illegal code point"
    | InvalidSaltVersion   // hash: salt does not start with "$2"
    | InvalidSaltRevision  // hash: minor not a/b/y, or not followed by '$'
    | MissingSaltRounds    // hash: character after the rounds field is above '$'
    | IllegalRounds        // _crypt and genSaltSync: rounds outside [4, 31]
    | IllegalSaltLength    // _crypt: decoded salt is not 16 bytes
    | IllegalArguments     // genSaltSync: rounds argument is not a number
    | IllegalHashLength    // getSalt: hash is not 60 characters

  /** A value or the error a JavaScript function would have thrown. */
  datatype Result<+T> = Ok(value: T) | Err(error: Error) {
    predicate IsFailure() {
      Err?
    }

    function PropagateFailure<U>(): Result<U>
      requires Err?
    {
      Err(error)
    }

    function Extract(): T
      requires Ok?
    {
      value
    }
  }

  /** A value or JavaScript's `undefined`. */
  datatype Option<+T> = None | Some(value: T)

  /** A JavaScript number as the engine meets it: an integer, or `NaN`
      (what `parseInt` returns when there is no digit). Fractions and
      infinities are not modelled. */
  datatype Number = Int(v: int) | NaN

  /** `x & 0xff` for an integral JavaScript number: the low byte of its
      two's-complement form, which for Dafny's Euclidean `%` is `x % 256`. */
  function Low8(x: int): (b: Byte)
    ensures 0 <= x < 0x100 ==> b == x
  {
    x % 0x100
  }

  /** `Low8` applied to every element of an array. */
  function LowBytes(a: seq<int>): (r: seq<Byte>)
    ensures |r| == |a|
    ensures forall i | 0 <= i < |a| :: r[i] == Low8(a[i])
  {
    seq(|a|, i requires 0 <= i < |a| => Low8(a[i]))
  }

  /** True when every element is already a byte value. */
  predicate AllBytes(a: seq<int>)
  {
    forall i | 0 <= i < |a| :: 0 <= a[i] < 0x100
  }

  /** A Dafny string literal of basic-plane characters as a JavaScript string. */
  function Str(s: string): (r: JsString)
    requires forall i | 0 <= i < |s| :: s[i] as int < 0x1_0000
    ensures |r| == |s|
    ensures forall i | 0 <= i < |s| :: r[i] == s[i] as int
  {
    seq(|s|, i requires 0 <= i < |s| => s[i] as int)
  }

  /** `String.prototype.charAt(i)` compared with a character: an index past
      the end yields the empty string, which equals no character. */
  predicate CharAtIs(s: JsString, i: nat, c: char)
  {
    i < |s| && s[i] == c as int
  }

  /** `String.prototype.substring(from, to)` for `0 <= from <= to`: both
      bounds are clamped to the length. */
  function Substring(s: JsString, from: nat, to: nat): (r: JsString)
    requires from <= to
    ensures |r| == (if to <= |s| then to else |s|) - (if from <= |s| then from else |s|)
    ensures from <= |s| ==> r == s[from..from + |r|]
  {
    var b := if to <= |s| then to else |s|;
    var a := if from <= |s| then from else |s|;
    s[a..b]
  }

  /** A prefix only shifts the positions `substring` reads. */
  lemma SubstringAfter(p: JsString, s: JsString, from: nat, to: nat)
    requires from <= to
    ensures Substring(p + s, |p| + from, |p| + to) == Substring(s, from, to)
  {
    var r, q := Substring(p + s, |p| + from, |p| + to), Substring(s, from, to);
    assert |r| == |q|;
    forall i | 0 <= i < |r|
      ensures r[i] == q[i]
    {
      assert r[i] == (p + s)[|p| + from + i];
    }
  }
}
