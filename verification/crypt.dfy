/**
 * `_crypt` (src/bcrypt/impl.js): the parameter checks, the expensive key
 * setup, `2^rounds` rounds of re-keying run in time slices by `next()`
 * (see `Slicing`), and the final 64 encipher passes over the constant
 * block.
 */
module Crypt {
  import opened Js
  import opened Blowfish
  import opened Slicing

  /** `P_ORIG`, `S_ORIG` and `C_ORIG`: the initial P-array, S-boxes and
      the 6-word block the digest enciphers. Their values live in a file
      that is not part of this model, so they are a parameter. */
  datatype Constants = Constants(p: seq<Word>, s: seq<Word>, c: seq<Word>)

  predicate ConstantsOk(k: Constants)
  {
    |k.p| == 18 && |k.s| == 1024 && |k.c| == 6
  }

  /** `BCRYPT_SALT_LEN`: the number of salt bytes. */
  const SaltLen: nat := 16

  function Pow2(n: nat): (r: nat)
    ensures r >= 1
  {
    if n == 0 then 1 else 2 * Pow2(n - 1)
  }

  // ---------------------------------------------------------------------
  // The digest

  /** One pass of `for (j = 0; j < (clen >> 1); j++) _encipher(cdata, j <<
      1, P, S)` from offset `off = j << 1` on; `j < clen >> 1` is
      `off + 1 < clen`. */
  function PassFrom(st: State, c: seq<Word>, off: nat): (r: seq<Word>)
    requires Valid(st)
    ensures |r| == |c|
    ensures forall m | 0 <= m < off && m < |c| :: r[m] == c[m]
    decreases |c| - off
  {
    if off + 1 >= |c| then c else PassFrom(st, EncipherAt(c, off, st), off + 2)
  }

  /** The pair at `off` comes out of a pass enciphered ... */
  lemma PassFromFirst(st: State, c: seq<Word>, off: nat)
    requires Valid(st) && off + 1 < |c|
    ensures PairAt(PassFrom(st, c, off), off) == Encipher(st, PairAt(c, off))
  {
    var c1 := EncipherAt(c, off, st);
    assert PassFrom(st, c, off) == PassFrom(st, c1, off + 2);
    assert PassFrom(st, c1, off + 2)[off] == c1[off];
    assert PassFrom(st, c1, off + 2)[off + 1] == c1[off + 1];
  }

  /** ... and so does every later pair: the pairs do not interfere, and
      all are enciphered under the same state. */
  lemma {:induction false} PassFromPairs(st: State, c: seq<Word>, off: nat, t: nat, m: nat)
    requires Valid(st) && m == off + 2 * t && m + 1 < |c|
    ensures PairAt(PassFrom(st, c, off), m) == Encipher(st, PairAt(c, m))
    decreases t, 1
  {
    if t == 0 {
      PassFromFirst(st, c, off);
    } else {
      PassFromLater(st, c, off, t, m);
    }
  }

  lemma {:induction false} PassFromLater(st: State, c: seq<Word>, off: nat, t: nat, m: nat)
    requires Valid(st) && m == off + 2 * t && m + 1 < |c| && t > 0
    ensures PairAt(PassFrom(st, c, off), m) == Encipher(st, PairAt(c, m))
    decreases t, 0
  {
    var c1 := EncipherAt(c, off, st);
    PassFromPairs(st, c1, off + 2, t - 1, m);
    assert PairAt(c1, m) == PairAt(c, m);
    assert PassFrom(st, c, off) == PassFrom(st, c1, off + 2);
  }

  /** One full pass. */
  function Pass(st: State, c: seq<Word>): (r: seq<Word>)
    requires Valid(st)
    ensures |r| == |c|
  {
    PassFrom(st, c, 0)
  }

  /** `n` passes. */
  function Passes(st: State, c: seq<Word>, n: nat): (r: seq<Word>)
    requires Valid(st)
    ensures |r| == |c|
    decreases n
  {
    if n == 0 then c else Passes(st, Pass(st, c), n - 1)
  }

  /** The big-endian split of every word, four bytes per word, in order. */
  function WordsBytes(c: seq<Word>): (r: seq<bv8>)
    ensures |r| == 4 * |c|
    decreases |c|
  {
    if |c| == 0 then [] else WordBytes(c[0]) + WordsBytes(c[1..])
  }

  /** Bytes `4 * i` to `4 * i + 3` are the split of word `i` ... */
  lemma {:induction false} WordsBytesAt(c: seq<Word>, i: nat)
    requires i < |c|
    ensures WordsBytes(c)[4 * i..4 * i + 4] == WordBytes(c[i])
    decreases |c|
  {
    if i > 0 {
      WordsBytesAt(c[1..], i - 1);
      assert WordsBytes(c)[4 * i..4 * i + 4] == WordsBytes(c[1..])[4 * (i - 1)..4 * (i - 1) + 4];
    }
  }

  /** The four elements of a four-element slice. */
  lemma QuadAt(b: seq<bv8>, q: nat, x: seq<bv8>)
    requires q + 4 <= |b| && b[q..q + 4] == x
    ensures |x| == 4 && b[q] == x[0] && b[q + 1] == x[1] && b[q + 2] == x[2] && b[q + 3] == x[3]
  {
    assert b[q..q + 4][0] == b[q];
    assert b[q..q + 4][3] == b[q + 3];
  }

  /** ... so the words can be read back from the bytes. */
  lemma WordsBytesInverse(c: seq<Word>, i: nat)
    requires i < |c|
    ensures var b := WordsBytes(c); Be(b[4 * i], b[4 * i + 1], b[4 * i + 2], b[4 * i + 3]) == c[i]
  {
    WordsBytesAt(c, i);
    QuadAt(WordsBytes(c), 4 * i, WordBytes(c[i]));
    BeWordBytes(c[i]);
  }

  /** The byte array `ret` as JavaScript numbers. */
  function Numbers(b: seq<bv8>): (r: seq<int>)
    ensures |r| == |b|
    ensures forall i | 0 <= i < |b| :: r[i] == b[i] as int && 0 <= r[i] < 0x100
  {
    seq(|b|, i requires 0 <= i < |b| => b[i] as int)
  }

  /** The `else` branch of `next()`: 64 passes over a copy of `C_ORIG`
      under the final state, then the big-endian bytes of the six words. */
  function Digest(k: Constants, st: State): (r: seq<int>)
    requires Valid(st)
    ensures |r| == 4 * |k.c|
  {
    DigestAfter(k, st, |st.p| == |st.p|)
  }

  /** `Digest` behind a one-step countdown (see `RoundAfter`). */
  function DigestAfter(k: Constants, st: State, wait: bool): (r: seq<int>)
    requires Valid(st)
    ensures |r| == 4 * |k.c|
    decreases wait
  {
    if wait then DigestAfter(k, st, false) else Numbers(WordsBytes(Passes(st, k.c, 64)))
  }

  lemma DigestIs(k: Constants, st: State)
    requires Valid(st)
    ensures Digest(k, st) == Numbers(WordsBytes(Passes(st, k.c, 64)))
  {
    assert DigestAfter(k, st, true) == DigestAfter(k, st, false);
  }

  /** The final step of `next()` as a value for the driver; it is only
      ever given states of the right shape. */
  function FinalStep(k: Constants): (f: State -> seq<int>)
  {
    st => if Valid(st) then Digest(k, st) else []
  }

  // ---------------------------------------------------------------------
  // The rounds

  /** One round of the loop in `next()`: `_key(b, P, S)` and then
      `_key(salt, P, S)`. It is only ever given states of the right
      shape; it leaves any other state alone. */
  function Round(st: State, key: seq<bv8>, salt: seq<bv8>): (r: State)
    ensures Valid(st) ==> Valid(r)
  {
    RoundAfter(st, key, salt, |key| == |key|)
  }

  /** `Round` behind a one-step countdown: a positive `wait` steps straight
      to 0, and 0 does the work. `Round`, `Setup0` and `Digest` reach the
      Blowfish schedules through such a countdown, started from a value
      that is not a literal, which the verifier does not unfold by itself
      (it unfolds a recursive function once where it is mentioned, and
      the countdown's first step does no work). Proofs about `hash` and `compareSync`, which never look
      inside Blowfish, then do not carry the key schedule along. `RoundIs`,
      `Setup0Is` and `DigestIs` state that the countdown changes nothing. */
  function RoundAfter(st: State, key: seq<bv8>, salt: seq<bv8>, wait: bool): (r: State)
    ensures Valid(st) ==> Valid(r)
    decreases wait
  {
    if wait then RoundAfter(st, key, salt, false)
    else if Valid(st) then Key(Key(st, key), salt) else st
  }

  lemma RoundIs(st: State, key: seq<bv8>, salt: seq<bv8>)
    ensures Round(st, key, salt) == if Valid(st) then Key(Key(st, key), salt) else st
  {
    assert RoundAfter(st, key, salt, true) == RoundAfter(st, key, salt, false);
  }

  /** `Round` as a value for the driver. */
  function RoundFn(key: seq<bv8>, salt: seq<bv8>): (f: State -> State)
  {
    st => Round(st, key, salt)
  }

  /** Any number of rounds keeps the state well formed. */
  lemma RoundsValid(key: seq<bv8>, salt: seq<bv8>, st: State, n: nat)
    requires Valid(st)
    ensures Valid(Iterate(RoundFn(key, salt), st, n))
  {
    IterateKeeps(RoundFn(key, salt), Valid, st, n);
  }

  // ---------------------------------------------------------------------
  // `_crypt`

  /** The state after `_ekskey(salt, b, P, S)` on fresh copies of the
      constants. */
  function Setup0(k: Constants, b: seq<int>, salt: seq<int>): (r: State)
    requires ConstantsOk(k)
    ensures Valid(r)
  {
    Setup0After(k, b, salt, |b| == |b|)
  }

  /** `Setup0` behind a one-step countdown (see `RoundAfter`). */
  function Setup0After(k: Constants, b: seq<int>, salt: seq<int>, wait: bool): (r: State)
    requires ConstantsOk(k)
    ensures Valid(r)
    decreases wait
  {
    if wait then Setup0After(k, b, salt, false) else EksKey(State(k.p, k.s), Masked(salt), Masked(b))
  }

  lemma Setup0Is(k: Constants, b: seq<int>, salt: seq<int>)
    requires ConstantsOk(k)
    ensures Setup0(k, b, salt) == EksKey(State(k.p, k.s), Masked(salt), Masked(b))
  {
    assert Setup0After(k, b, salt, true) == Setup0After(k, b, salt, false);
  }

  /** bcrypt's `EksBlowfishSetup` followed by the encryption of the
      constant block, written without slices: the expensive key setup,
      `2^rounds` rounds, then the digest. */
  function Bcrypt(k: Constants, b: seq<int>, salt: seq<int>, rounds: nat): (r: seq<int>)
    requires ConstantsOk(k)
    ensures |r| == 24
  {
    BcryptAfter(k, b, salt, rounds, |b| == |b|)
  }

  /** `Bcrypt` behind a one-step countdown (see `RoundAfter`). */
  function BcryptAfter(k: Constants, b: seq<int>, salt: seq<int>, rounds: nat, wait: bool): (r: seq<int>)
    requires ConstantsOk(k)
    ensures |r| == 24
    decreases wait
  {
    if wait then BcryptAfter(k, b, salt, rounds, false)
    else
      var st := Iterate(RoundFn(Masked(b), Masked(salt)), Setup0(k, b, salt), Pow2(rounds));
      RoundsValid(Masked(b), Masked(salt), Setup0(k, b, salt), Pow2(rounds));
      Digest(k, st)
  }

  lemma BcryptIs(k: Constants, b: seq<int>, salt: seq<int>, rounds: nat)
    requires ConstantsOk(k)
    ensures var st := Iterate(RoundFn(Masked(b), Masked(salt)), Setup0(k, b, salt), Pow2(rounds));
      Valid(st) && Bcrypt(k, b, salt, rounds) == Digest(k, st)
  {
    RoundsValid(Masked(b), Masked(salt), Setup0(k, b, salt), Pow2(rounds));
    assert BcryptAfter(k, b, salt, rounds, true) == BcryptAfter(k, b, salt, rounds, false);
  }

  /** `_crypt` once its arguments are checked: `_ekskey(salt, b, P, S)`,
      then `next()` until it yields the digest. Whatever the slicing, the
      digest is the one of `Bcrypt`. */
  function Run(k: Constants, b: seq<int>, salt: seq<int>, rounds: nat, quota: nat -> nat): (r: Outcome)
    requires ConstantsOk(k) && Positive(quota)
    ensures r.digest == Bcrypt(k, b, salt, rounds) && |r.reported| >= 1
  {
    RunAfter(k, b, salt, rounds, quota, |b| == |b|)
  }

  /** The job `next()` starts from and what it closes over. */
  function Start(k: Constants, b: seq<int>, salt: seq<int>, rounds: nat): (r: (Setup<State>, Job<State>))
    requires ConstantsOk(k)
    ensures r.1.i == 0 && r.0.rounds == Pow2(rounds)
  {
    (Setup(RoundFn(Masked(b), Masked(salt)), FinalStep(k), Pow2(rounds)), Job(Setup0(k, b, salt), 0))
  }

  /** `Run` behind a one-step countdown (see `RoundAfter`). */
  function RunAfter(k: Constants, b: seq<int>, salt: seq<int>, rounds: nat, quota: nat -> nat, wait: bool): (r: Outcome)
    requires ConstantsOk(k) && Positive(quota)
    ensures r.digest == Bcrypt(k, b, salt, rounds) && |r.reported| >= 1
    decreases wait
  {
    if wait then RunAfter(k, b, salt, rounds, quota, false)
    else
      var (g, job) := Start(k, b, salt, rounds);
      DriveFromStart(g, job.st, quota);
      RoundsValid(Masked(b), Masked(salt), job.st, Pow2(rounds));
      BcryptIs(k, b, salt, rounds);
      Drive(g, job, quota, 0)
  }

  lemma RunIs(k: Constants, b: seq<int>, salt: seq<int>, rounds: nat, quota: nat -> nat)
    requires ConstantsOk(k) && Positive(quota)
    ensures var (g, job) := Start(k, b, salt, rounds);
      Run(k, b, salt, rounds, quota) == Drive(g, job, quota, 0)
  {
    assert RunAfter(k, b, salt, rounds, quota, true) == RunAfter(k, b, salt, rounds, quota, false);
  }

  /** `rounds < 4 || rounds > 31`: every comparison with `NaN` is false,
      so `NaN` passes the check. */
  predicate BadRounds(rounds: Number)
  {
    rounds.Int? && (rounds.v < 4 || rounds.v > 31)
  }

  /** The shift count of `(1 << rounds) >>> 0` for a count that passed the
      check: `ToInt32(NaN)` is 0. For 4 to 31 the unsigned result is
      `2^rounds`. */
  function ShiftCount(rounds: Number): (n: nat)
    requires !BadRounds(rounds)
    ensures n <= 31
    ensures rounds.Int? ==> n == rounds.v
  {
    if rounds.NaN? then 0 else rounds.v
  }

  /** `_crypt(b, salt, rounds)` without a callback, `next()` sliced by
      `quota`: the round count is checked before the salt length. */
  function CryptSync(k: Constants, b: seq<int>, salt: seq<int>, rounds: Number, quota: nat -> nat): (r: Result<Outcome>)
    requires ConstantsOk(k) && Positive(quota)
    ensures r.Err? <==> BadRounds(rounds) || |salt| != SaltLen
    ensures r.Err? && BadRounds(rounds) ==> r.error == IllegalRounds
    ensures r.Err? && !BadRounds(rounds) ==> r.error == IllegalSaltLength
    ensures r.Ok? ==> r.value.digest == Bcrypt(k, b, salt, ShiftCount(rounds)) && |r.value.digest| == 24
  {
    if BadRounds(rounds) then Err(IllegalRounds)
    else if |salt| != SaltLen then Err(IllegalSaltLength)
    else Ok(Run(k, b, salt, ShiftCount(rounds), quota))
  }

  /** `_crypt` reports progress `0`, ..., `1` (as `i / rounds`) in order,
      at most once per round plus once for the digest. */
  lemma RunProgress(k: Constants, b: seq<int>, salt: seq<int>, rounds: nat, quota: nat -> nat)
    requires ConstantsOk(k) && Positive(quota)
    ensures var p := Run(k, b, salt, rounds, quota).reported;
      p[0] == 0 && p[|p| - 1] == Pow2(rounds) && Ordered(p, 0, Pow2(rounds))
      && |p| <= Pow2(rounds) + 1
  {
    var (g, job) := Start(k, b, salt, rounds);
    RunIs(k, b, salt, rounds, quota);
    DriveProgress(g, job, quota, 0);
    DriveCalls(g, job, quota, 0);
  }

  // ---------------------------------------------------------------------
  // The 72-byte limit

  /** A round reads only the first 72 bytes of the password. */
  lemma RoundPrefix72(a: seq<bv8>, b: seq<bv8>, salt: seq<bv8>, x: State)
    requires SamePrefix72(a, b)
    ensures Round(x, a, salt) == Round(x, b, salt)
  {
    RoundIs(x, a, salt);
    RoundIs(x, b, salt);
    if Valid(x) {
      KeyPrefix72(x, salt, a, b);
      KeyPrefix72(Key(x, a), salt, a, b);
    }
  }

  /** ... so the two rounds agree on every state ... */
  lemma RoundsAgree72(a: seq<bv8>, b: seq<bv8>, salt: seq<bv8>)
    requires SamePrefix72(a, b)
    ensures forall x :: RoundFn(a, salt)(x) == RoundFn(b, salt)(x)
  {
    forall x
      ensures RoundFn(a, salt)(x) == RoundFn(b, salt)(x)
    {
      RoundPrefix72(a, b, salt, x);
    }
  }

  /** ... and so do any number of rounds ... */
  lemma IteratePrefix72(st: State, a: seq<bv8>, b: seq<bv8>, salt: seq<bv8>, n: nat)
    requires SamePrefix72(a, b)
    ensures Iterate(RoundFn(a, salt), st, n) == Iterate(RoundFn(b, salt), st, n)
  {
    RoundsAgree72(a, b, salt);
    IterateAgree(RoundFn(a, salt), RoundFn(b, salt), st, n);
  }

  /** ... and so does the whole of `_crypt`. */
  lemma BcryptPrefix72(k: Constants, a: seq<int>, b: seq<int>, salt: seq<int>, rounds: nat)
    requires ConstantsOk(k)
    requires SamePrefix72(Masked(a), Masked(b))
    ensures Bcrypt(k, a, salt, rounds) == Bcrypt(k, b, salt, rounds)
  {
    BcryptIs(k, a, salt, rounds);
    BcryptIs(k, b, salt, rounds);
    Setup0Is(k, a, salt);
    Setup0Is(k, b, salt);
    KeyPrefix72(State(k.p, k.s), Masked(salt), Masked(a), Masked(b));
    IteratePrefix72(Setup0(k, a, salt), Masked(a), Masked(b), Masked(salt), Pow2(rounds));
  }

  /** Only the low byte of each password and salt element reaches the
      engine (`& 0xff` in `_streamtoword`). */
  lemma BcryptMasked(k: Constants, b1: seq<int>, b2: seq<int>, s1: seq<int>, s2: seq<int>, rounds: nat)
    requires ConstantsOk(k)
    requires Masked(b1) == Masked(b2) && Masked(s1) == Masked(s2)
    ensures Bcrypt(k, b1, s1, rounds) == Bcrypt(k, b2, s2, rounds)
  {
    BcryptIs(k, b1, s1, rounds);
    BcryptIs(k, b2, s2, rounds);
    Setup0Is(k, b1, s1);
    Setup0Is(k, b2, s2);
  }
}
