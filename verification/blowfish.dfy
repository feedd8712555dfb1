/**
 * The Blowfish core of bcrypt (src/bcrypt/impl.js): the block function
 * `_encipher`, the cyclic key reader `_streamtoword`, and the key schedules
 * `_key` and `_ekskey`.
 *
 * The source computes on JavaScript int32 values and `Int32Array`s; every
 * operation it uses (`^`, `+` folded back by the next `^`, `<<`, `>>`, `>>>`
 * and `&`) acts on the 32 bits alone, so words are `bv32` here. The key
 * schedules mutate `P` and `S` in place; here they are functions from a
 * state to the next state.
 */
module Blowfish {
  import opened Js

  type Word = bv32

  /** The P-array (18 words) and the four 256-word S-boxes, stored one after
      another in a single 1024-word array as in the source. */
  datatype State = State(p: seq<Word>, s: seq<Word>)

  predicate Valid(st: State)
  {
    |st.p| == 18 && |st.s| == 1024
  }

  /** A 64-bit block as its left and right halves. */
  datatype Block = Block(l: Word, r: Word)

  /** The round function: `((S0[x >>> 24] + S1[(x >> 16) & 0xff]) ^
      S2[(x >> 8) & 0xff]) + S3[x & 0xff]`, modulo 2^32. */
  function F(s: seq<Word>, x: Word): Word
    requires |s| == 1024
  {
    var a := (x >> 24) as int;
    var b := ((x >> 16) & 0xff) as int;
    var c := ((x >> 8) & 0xff) as int;
    var d := (x & 0xff) as int;
    ((s[a] + s[0x100 + b]) ^ s[0x200 + c]) + s[0x300 + d]
  }

  /** Half-round `i` (1 to 16): odd rounds update the right half from the
      left, even rounds the left half from the right. Each is its own
      inverse. */
  function Half(st: State, b: Block, i: nat): Block
    requires Valid(st) && 1 <= i <= 16
  {
    if i % 2 == 1 then Block(b.l, b.r ^ (F(st.s, b.l) ^ st.p[i]))
    else Block(b.l ^ (F(st.s, b.r) ^ st.p[i]), b.r)
  }

  /** Half-rounds `i` to 16, in order. */
  function Rounds(st: State, b: Block, i: nat): Block
    requires Valid(st) && 1 <= i <= 17
    decreases 17 - i
  {
    if i == 17 then b else Rounds(st, Half(st, b, i), i + 1)
  }

  /** The input whitening `l ^= P[0]`. */
  function Pre(st: State, b: Block): Block
    requires Valid(st)
  {
    Block(b.l ^ st.p[0], b.r)
  }

  /** The output step: the pair `(r ^ P[17], l)`. */
  function Post(st: State, x: Block): Block
    requires Valid(st)
  {
    Block(x.r ^ st.p[17], x.l)
  }

  /** `_encipher`: `l ^= P[0]`, sixteen half-rounds with `P[1..16]`, then the
      output pair `(r ^ P[17], l)`. */
  function Encipher(st: State, b: Block): Block
    requires Valid(st)
  {
    Post(st, Rounds(st, Pre(st, b), 1))
  }

  /** `_encipher(lr, off, P, S)` on an array: only `lr[off]` and `lr[off + 1]`
      change, and they receive the enciphered pair. */
  function EncipherAt(lr: seq<Word>, off: nat, st: State): (r: seq<Word>)
    requires Valid(st) && off + 1 < |lr|
    ensures |r| == |lr|
    ensures forall k | 0 <= k < |lr| && k != off && k != off + 1 :: r[k] == lr[k]
    ensures Block(r[off], r[off + 1]) == Encipher(st, Block(lr[off], lr[off + 1]))
  {
    var e := Encipher(st, Block(lr[off], lr[off + 1]));
    lr[off := e.l][off + 1 := e.r]
  }

  /** Half-rounds 16 down to `i`: the reverse schedule. */
  function Unrounds(st: State, b: Block, i: nat): Block
    requires Valid(st) && 1 <= i <= 17
    decreases 17 - i
  {
    if i == 17 then b else Half(st, Unrounds(st, b, i + 1), i)
  }

  /** Blowfish decryption: the steps of `Encipher` undone in reverse order. */
  function Decipher(st: State, c: Block): Block
    requires Valid(st)
  {
    Pre(st, Unrounds(st, Unpost(st, c), 1))
  }

  /** The inverse of `Post`. */
  function Unpost(st: State, c: Block): Block
    requires Valid(st)
  {
    Block(c.r, c.l ^ st.p[17])
  }

  /** An odd half-round is its own inverse ... */
  lemma HalfOddInvolution(st: State, b: Block, i: nat)
    requires Valid(st) && 1 <= i <= 16 && i % 2 == 1
    ensures Half(st, Half(st, b, i), i) == b
  {
  }

  /** ... and so is an even one. */
  lemma HalfEvenInvolution(st: State, b: Block, i: nat)
    requires Valid(st) && 1 <= i <= 16 && i % 2 == 0
    ensures Half(st, Half(st, b, i), i) == b
  {
  }

  lemma HalfInvolution(st: State, b: Block, i: nat)
    requires Valid(st) && 1 <= i <= 16
    ensures Half(st, Half(st, b, i), i) == b
  {
    if i % 2 == 1 {
      HalfOddInvolution(st, b, i);
    } else {
      HalfEvenInvolution(st, b, i);
    }
  }

  lemma {:induction false} UnroundsRounds(st: State, b: Block, i: nat)
    requires Valid(st) && 1 <= i <= 17
    ensures Unrounds(st, Rounds(st, b, i), i) == b
    decreases 17 - i
  {
    if i < 17 {
      UnroundsRounds(st, Half(st, b, i), i + 1);
      HalfInvolution(st, b, i);
    }
  }

  lemma {:induction false} RoundsUnrounds(st: State, b: Block, i: nat)
    requires Valid(st) && 1 <= i <= 17
    ensures Rounds(st, Unrounds(st, b, i), i) == b
    decreases 17 - i
  {
    if i < 17 {
      HalfInvolution(st, Unrounds(st, b, i + 1), i);
      RoundsUnrounds(st, b, i + 1);
    }
  }

  /** The input whitening is its own inverse. */
  lemma PreInvolution(st: State, b: Block)
    requires Valid(st)
    ensures Pre(st, Pre(st, b)) == b
  {
  }

  /** `Unpost` undoes `Post` ... */
  lemma UnpostPost(st: State, b: Block)
    requires Valid(st)
    ensures Unpost(st, Post(st, b)) == b
  {
  }

  /** ... and `Post` undoes `Unpost`. */
  lemma PostUnpost(st: State, c: Block)
    requires Valid(st)
    ensures Post(st, Unpost(st, c)) == c
  {
  }

  /** Deciphering undoes enciphering under the same state ... */
  lemma DecipherEncipher(st: State, b: Block)
    requires Valid(st)
    ensures Decipher(st, Encipher(st, b)) == b
  {
    UnpostPost(st, Rounds(st, Pre(st, b), 1));
    UnroundsRounds(st, Pre(st, b), 1);
    PreInvolution(st, b);
  }

  /** ... and the other way round, so `Encipher` is a permutation of blocks. */
  lemma EncipherDecipher(st: State, c: Block)
    requires Valid(st)
    ensures Encipher(st, Decipher(st, c)) == c
  {
    PreInvolution(st, Unrounds(st, Unpost(st, c), 1));
    RoundsUnrounds(st, Unpost(st, c), 1);
    PostUnpost(st, c);
  }

  // ---------------------------------------------------------------------
  // Bytes and words

  /** The big-endian word of four bytes. */
  function Be(a: bv8, b: bv8, c: bv8, d: bv8): Word
  {
    ((a as Word) << 24) | ((b as Word) << 16) | ((c as Word) << 8) | (d as Word)
  }

  /** The big-endian split `(w >> 24) & 0xff, (w >> 16) & 0xff, (w >> 8) &
      0xff, w & 0xff` that `_crypt` uses to turn the final words into bytes. */
  function WordBytes(w: Word): (r: seq<bv8>)
    ensures |r| == 4
  {
    [(w >> 24) as bv8, ((w >> 16) & 0xff) as bv8, ((w >> 8) & 0xff) as bv8, (w & 0xff) as bv8]
  }

  /** Splitting a packed word gives back its bytes ... */
  lemma WordBytesBe(a: bv8, b: bv8, c: bv8, d: bv8)
    ensures WordBytes(Be(a, b, c, d)) == [a, b, c, d]
  {
  }

  /** ... and packing the split gives back the word. */
  lemma BeWordBytes(w: Word)
    ensures Be(WordBytes(w)[0], WordBytes(w)[1], WordBytes(w)[2], WordBytes(w)[3]) == w
  {
  }

  /** One step of the `_streamtoword` loop: `(word << 8) | byte`. */
  function ShiftIn(w: Word, b: bv8): Word
  {
    (w << 8) | (b as Word)
  }

  lemma ShiftInFour(a: bv8, b: bv8, c: bv8, d: bv8)
    ensures ShiftIn(ShiftIn(ShiftIn(ShiftIn(0, a), b), c), d) == Be(a, b, c, d)
  {
  }

  // ---------------------------------------------------------------------
  // The cyclic key stream

  /** A JavaScript byte array as the engine reads it: every element masked
      with `& 0xff`. `_streamtoword` masks each element as it reads it;
      masking them all up front gives the same bytes. */
  function Masked(a: seq<int>): (r: seq<bv8>)
    ensures |r| == |a|
    ensures forall i | 0 <= i < |a| :: r[i] == Low8(a[i]) as bv8
  {
    seq(|a|, i requires 0 <= i < |a| => Low8(a[i]) as bv8)
  }

  /** Position `j` of the endless repetition of a sequence of length `n`:
      `j` with `n` subtracted until it is below `n`, that is `j mod n`. */
  function Cyclic(n: nat, j: nat): (k: nat)
    requires n > 0
    ensures k < n
    ensures j < n ==> k == j
    decreases j
  {
    if j < n then j else Cyclic(n, j - n)
  }

  /** Reducing first and then moving on agrees with moving on first. */
  lemma {:induction false} CyclicAdd(n: nat, j: nat, k: nat)
    requires n > 0
    ensures Cyclic(n, Cyclic(n, j) + k) == Cyclic(n, j + k)
    decreases j
  {
    if j >= n {
      CyclicAdd(n, j - n, k);
      assert Cyclic(n, j + k) == Cyclic(n, j - n + k);
    } else {
      assert Cyclic(n, j) == j;
    }
  }

  /** A valid stream offset: an index of `data`, or 0 for an empty array. */
  predicate OffsetOk(data: seq<bv8>, off: nat)
  {
    if |data| == 0 then off == 0 else off < |data|
  }

  /** The offset after reading up to position `j` of the repeated `data`
      from the start. An empty array keeps the offset at 0: the source's
      `(offp + 1) % 0` is `NaN`, and every read through it is `undefined`,
      which `& 0xff` turns into 0 exactly as the read at index 0 does. */
  function Offset(data: seq<bv8>, j: nat): (off: nat)
    ensures OffsetOk(data, off)
  {
    if |data| == 0 then 0 else Cyclic(|data|, j)
  }

  /** The byte at position `j` of the endless repetition of `data`; an
      empty array reads as 0. */
  function ByteAt(data: seq<bv8>, j: nat): bv8
  {
    if |data| == 0 then 0 else data[Cyclic(|data|, j)]
  }

  /** The first `n` bytes from stream position `j` shifted into a word one
      after another, as the `_streamtoword` loop does. */
  function Pack(data: seq<bv8>, j: nat, n: nat): Word
    decreases n
  {
    if n == 0 then 0 else ShiftIn(Pack(data, j, n - 1), ByteAt(data, j + n - 1))
  }

  /** The key word at stream position `j`: the four cyclic bytes from `j`
      on, packed. */
  function WordAt(data: seq<bv8>, j: nat): Word
  {
    WordAtAfter(data, j, |data| == |data|)
  }

  /** `WordAt` behind a one-step countdown started from a value that is
      not a literal: a proof that only moves words around does not unroll
      the four byte shifts of every word it mentions; `WordAtIs` opens it. */
  function WordAtAfter(data: seq<bv8>, j: nat, wait: bool): Word
    decreases wait
  {
    if wait then WordAtAfter(data, j, false) else Pack(data, j, 4)
  }

  lemma WordAtIs(data: seq<bv8>, j: nat)
    ensures WordAt(data, j) == Pack(data, j, 4)
  {
    assert WordAtAfter(data, j, true) == WordAtAfter(data, j, false);
  }

  /** The key word is the big-endian word of those four bytes. */
  lemma WordAtBe(data: seq<bv8>, j: nat)
    ensures WordAt(data, j) == Be(ByteAt(data, j), ByteAt(data, j + 1), ByteAt(data, j + 2), ByteAt(data, j + 3))
  {
    WordAtIs(data, j);
    ShiftInFour(ByteAt(data, j), ByteAt(data, j + 1), ByteAt(data, j + 2), ByteAt(data, j + 3));
  }

  /** What `_streamtoword` returns: the word and the new offset. */
  datatype Read = Read(word: Word, off: nat)

  /** `data[offp] & 0xff` at a valid offset. */
  function Peek(data: seq<bv8>, off: nat): bv8
    requires OffsetOk(data, off)
  {
    if |data| == 0 then 0 else data[off]
  }

  /** `(offp + 1) % data.length`, kept at 0 for an empty array. */
  function Advance(data: seq<bv8>, off: nat): (r: nat)
    requires OffsetOk(data, off)
    ensures OffsetOk(data, r)
  {
    if |data| == 0 then 0 else (off + 1) % |data|
  }

  /** The `_streamtoword` loop with `k` steps to go. */
  function StreamFrom(data: seq<bv8>, off: nat, k: nat, word: Word): (r: Read)
    requires OffsetOk(data, off)
    ensures OffsetOk(data, r.off)
    decreases k
  {
    if k == 0 then Read(word, off)
    else StreamFrom(data, Advance(data, off), k - 1, ShiftIn(word, Peek(data, off)))
  }

  /** `(o + 1) % n` for an index `o` of an array of length `n`. */
  lemma ModNext(o: nat, n: nat)
    requires o < n
    ensures (o + 1) % n == if o + 1 == n then 0 else o + 1
  {
  }

  /** A step of the stream at absolute position `j` reads byte `j` ... */
  lemma StreamStepByte(data: seq<bv8>, j: nat)
    ensures Peek(data, Offset(data, j)) == ByteAt(data, j)
  {
  }

  /** ... and moves to position `j + 1`. */
  lemma StreamStepOffset(data: seq<bv8>, j: nat)
    ensures Advance(data, Offset(data, j)) == Offset(data, j + 1)
  {
    if |data| > 0 {
      ModNext(Cyclic(|data|, j), |data|);
      CyclicAdd(|data|, j, 1);
    }
  }

  lemma StreamStep(data: seq<bv8>, j: nat)
    ensures Peek(data, Offset(data, j)) == ByteAt(data, j)
    ensures Advance(data, Offset(data, j)) == Offset(data, j + 1)
  {
    StreamStepByte(data, j);
    StreamStepOffset(data, j);
  }

  /** Running the loop `k` more steps after `n` bytes from position `j`
      have been shifted in packs `n + k` bytes and ends at `j + n + k`. */
  lemma {:induction false} StreamFromPack(data: seq<bv8>, j: nat, n: nat, k: nat)
    ensures StreamFrom(data, Offset(data, j + n), k, Pack(data, j, n)) == Read(Pack(data, j, n + k), Offset(data, j + n + k))
    decreases k
  {
    if k > 0 {
      StreamStep(data, j + n);
      StreamFromPack(data, j, n + 1, k - 1);
    }
  }

  /** `_streamtoword(data, offp)`: the big-endian word of the four bytes at
      `offp` taken cyclically, and the offset four bytes on. */
  function StreamToWord(data: seq<bv8>, off: nat): (r: Read)
    requires OffsetOk(data, off)
    ensures r.word == WordAt(data, off)
    ensures r.off == Offset(data, off + 4)
  {
    assert Offset(data, off) == off;
    StreamFromPack(data, off, 0, 4);
    WordAtIs(data, off);
    StreamFrom(data, off, 4, 0)
  }

  /** Positions taken from an offset behave as positions taken from where
      that offset was reduced from ... */
  lemma OffsetAdd(data: seq<bv8>, j: nat, k: nat)
    ensures Offset(data, Offset(data, j) + k) == Offset(data, j + k)
  {
    if |data| > 0 {
      CyclicAdd(|data|, j, k);
    }
  }

  /** ... and so do the bytes read there ... */
  lemma ByteAtOffset(data: seq<bv8>, j: nat, k: nat)
    ensures ByteAt(data, Offset(data, j) + k) == ByteAt(data, j + k)
  {
    if |data| > 0 {
      CyclicAdd(|data|, j, k);
    }
  }

  /** ... and so do the words packed there. */
  lemma {:induction false} PackOffset(data: seq<bv8>, j: nat, k: nat, n: nat)
    ensures Pack(data, Offset(data, j) + k, n) == Pack(data, j + k, n)
    decreases n
  {
    if n > 0 {
      PackOffset(data, j, k, n - 1);
      ByteAtOffset(data, j, k + n - 1);
    }
  }

  lemma WordAtOffset(data: seq<bv8>, j: nat, k: nat)
    ensures WordAt(data, Offset(data, j) + k) == WordAt(data, j + k)
  {
    PackOffset(data, j, k, 4);
    WordAtIs(data, Offset(data, j) + k);
    WordAtIs(data, j + k);
  }

  /** `_streamtoword` at the reduced form of position `pos` reads the word
      at `pos` and moves on to position `pos + 4`. */
  lemma StreamAt(data: seq<bv8>, pos: nat)
    ensures StreamToWord(data, Offset(data, pos)).word == WordAt(data, pos)
    ensures StreamToWord(data, Offset(data, pos)).off == Offset(data, pos + 4)
  {
    WordAtOffset(data, pos, 0);
    OffsetAdd(data, pos, 4);
  }

  // ---------------------------------------------------------------------
  // The key schedules

  /** `a ^ b` on words. */
  function Xor(a: Word, b: Word): Word
  {
    a ^ b
  }

  /** The word at a position does not depend on how the position is
      written. */
  lemma SameWord(data: seq<bv8>, a: nat, b: nat)
    requires a == b
    ensures WordAt(data, a) == WordAt(data, b)
  {
  }

  /** `n` successive `_streamtoword` calls from offset `off`: the words the
      first loop of `_key` and `_ekskey` XORs into `P`. */
  function KeyWordsFrom(key: seq<bv8>, off: nat, n: nat): (r: seq<Word>)
    requires OffsetOk(key, off)
    ensures |r| == n
    decreases n
  {
    if n == 0 then []
    else
      var sw := StreamToWord(key, off);
      [sw.word] + KeyWordsFrom(key, sw.off, n - 1)
  }

  /** The words at positions `pos`, `pos + 4`, ...: `n` of them. */
  function WordsFrom(key: seq<bv8>, pos: nat, n: nat): (r: seq<Word>)
    ensures |r| == n
    decreases n
  {
    if n == 0 then [] else [WordAt(key, pos)] + WordsFrom(key, pos + 4, n - 1)
  }

  lemma {:induction false} KeyWordsFromWords(key: seq<bv8>, pos: nat, n: nat)
    ensures KeyWordsFrom(key, Offset(key, pos), n) == WordsFrom(key, pos, n)
    decreases n
  {
    if n > 0 {
      StreamAt(key, pos);
      KeyWordsFromWords(key, pos + 4, n - 1);
    }
  }

  lemma {:induction false} WordsFromAt(key: seq<bv8>, pos: nat, n: nat, m: nat)
    requires m < n
    ensures WordsFrom(key, pos, n)[m] == WordAt(key, pos + 4 * m)
    decreases n
  {
    if m > 0 {
      WordsFromAt(key, pos + 4, n - 1, m - 1);
      SameWord(key, pos + 4 + 4 * (m - 1), pos + 4 * m);
    }
  }

  lemma KeyWordsFromAt(key: seq<bv8>, pos: nat, n: nat, m: nat)
    requires m < n
    ensures KeyWordsFrom(key, Offset(key, pos), n)[m] == WordAt(key, pos + 4 * m)
  {
    KeyWordsFromWords(key, pos, n);
    WordsFromAt(key, pos, n, m);
  }

  /** The key words of a pass over `n` entries, read from the start of the
      key. */
  function KeyWords(key: seq<bv8>, n: nat): (r: seq<Word>)
    ensures |r| == n
    ensures forall m | 0 <= m < n :: r[m] == WordAt(key, 4 * m)
  {
    assert Offset(key, 0) == 0;
    KeyWordsAt(key, n);
    KeyWordsFrom(key, 0, n)
  }

  lemma KeyWordsAt(key: seq<bv8>, n: nat)
    ensures forall m | 0 <= m < n :: KeyWordsFrom(key, Offset(key, 0), n)[m] == WordAt(key, 4 * m)
  {
    forall m | 0 <= m < n
      ensures KeyWordsFrom(key, Offset(key, 0), n)[m] == WordAt(key, 4 * m)
    {
      KeyWordsFromAt(key, 0, n, m);
    }
  }

  /** The first loop of `_key` and `_ekskey`: `P[i] ^= ` the next key word.
      Reading the key does not depend on `P`, so the words are drawn first
      and XORed in entry by entry. */
  function XorKey(p: seq<Word>, key: seq<bv8>): (r: seq<Word>)
    ensures |r| == |p|
    ensures forall k | 0 <= k < |p| :: r[k] == Xor(p[k], WordAt(key, 4 * k))
  {
    var words := KeyWords(key, |p|);
    seq(|p|, k requires 0 <= k < |p| => Xor(p[k], words[k]))
  }

  /** The two tables the key schedules overwrite. */
  datatype Table = PArray | SBoxes

  /** The number of pairs in a table: 18 and 1024 words. */
  function Pairs(t: Table): nat
  {
    if t.PArray? then 9 else 512
  }

  function Other(t: Table): Table
  {
    if t.PArray? then SBoxes else PArray
  }

  function Get(st: State, t: Table): (w: seq<Word>)
    ensures Valid(st) ==> |w| == 2 * Pairs(t)
  {
    if t.PArray? then st.p else st.s
  }

  /** The state with table `t` replaced. */
  function With(st: State, t: Table, w: seq<Word>): (r: State)
    ensures Get(r, t) == w && Get(r, Other(t)) == Get(st, Other(t))
  {
    if t.PArray? then st.(p := w) else st.(s := w)
  }

  /** How each block to encipher is formed from the previous output: `_key`
      uses it as it is; `_ekskey` first XORs the next two words of the salt
      stream into its halves. */
  datatype Mixing = Plain | Salted(data: seq<bv8>)

  /** Two blocks XORed half by half. */
  function XorBlock(a: Block, b: Block): Block
  {
    Block(a.l ^ b.l, a.r ^ b.r)
  }

  /** Two successive `_streamtoword` calls from position `pos` read the
      words at `pos` and `pos + 4`. */
  lemma SaltWords(data: seq<bv8>, pos: nat)
    ensures StreamToWord(data, Offset(data, pos)).word == WordAt(data, pos)
    ensures StreamToWord(data, StreamToWord(data, Offset(data, pos)).off).word == WordAt(data, pos + 4)
  {
    StreamAt(data, pos);
    StreamAt(data, pos + 4);
  }

  /** The block enciphered for the next pair, formed from the previous
      output `lr` with the salt stream at absolute position `pos` (the
      source keeps the reduced offset `Offset(data, pos)`): two
      `_streamtoword` calls, XORed into `lr[0]` and `lr[1]`. */
  function Mix(mix: Mixing, lr: Block, pos: nat): (r: Block)
    ensures mix.Plain? ==> r == lr
    ensures mix.Salted? ==> r == XorBlock(lr, Block(WordAt(mix.data, pos), WordAt(mix.data, pos + 4)))
  {
    match mix
    case Plain => lr
    case Salted(data) =>
      var w0 := StreamToWord(data, Offset(data, pos));
      var w1 := StreamToWord(data, w0.off);
      SaltWords(data, pos);
      XorBlock(lr, Block(w0.word, w1.word))
  }

  /** The pair of words at `k`, `k + 1`. */
  function PairAt(w: seq<Word>, k: nat): Block
    requires k + 1 < |w|
  {
    Block(w[k], w[k + 1])
  }

  /** `T[i] = lr[0], T[i + 1] = lr[1]`: a pair stored at `i`, `i + 1`. */
  function Store(w: seq<Word>, i: nat, e: Block): (r: seq<Word>)
    requires i + 1 < |w|
    ensures |r| == |w|
    ensures forall k | 0 <= k < |w| && k != i && k != i + 1 :: r[k] == w[k]
    ensures PairAt(r, i) == e
  {
    w[i := e.l][i + 1 := e.r]
  }

  /** The pair a fill step stores: the previous output `lr`, mixed with
      the salt words at `pos`, enciphered under the current state. */
  function Out(st: State, lr: Block, mix: Mixing, pos: nat): Block
    requires Valid(st)
  {
    Encipher(st, Mix(mix, lr, pos))
  }

  /** The state after a fill step stores `Out` as pair `j` of table `t`. */
  function Next(st: State, t: Table, j: nat, lr: Block, mix: Mixing, pos: nat): (r: State)
    requires Valid(st) && j < Pairs(t)
    ensures Valid(r)
  {
    With(st, t, Store(Get(st, t), 2 * j, Out(st, lr, mix, pos)))
  }

  /** What a fill loop leaves: the state and the last output pair. */
  datatype Fill = Fill(st: State, lr: Block)

  /** A fill loop of `_key` or `_ekskey` from pair `j` on (entries `2 * j`
      and `2 * j + 1`) with the salt stream at position `pos`: encipher
      the mixed previous output under the current state, store it as pair
      `j`, and go on with the next pair eight salt bytes further. */
  function FillFrom(st: State, t: Table, j: nat, lr: Block, mix: Mixing, pos: nat): (r: Fill)
    requires Valid(st) && j <= Pairs(t)
    ensures Valid(r.st)
    ensures Get(r.st, Other(t)) == Get(st, Other(t))
    ensures forall k | 0 <= k < 2 * j :: Get(r.st, t)[k] == Get(st, t)[k]
    ensures j == Pairs(t) ==> r.lr == lr
    ensures j < Pairs(t) ==> r.lr == PairAt(Get(r.st, t), 2 * Pairs(t) - 2)
    decreases Pairs(t) - j
  {
    if j == Pairs(t) then Fill(st, lr)
    else
      var e := Encipher(st, Mix(mix, lr, pos));
      var w := Store(Get(st, t), 2 * j, e);
      var r := FillFrom(With(st, t, w), t, j + 1, e, mix, pos + 8);
      assert forall k | 0 <= k < 2 * j :: Get(r.st, t)[k] == w[k];
      r
  }

  /** The first two loops shared by `_key` and `_ekskey`: XOR the key
      words into `P`, then refill `P` pair by pair with the successive
      encipherings of the running block, which starts at `(0, 0)`; the
      salt stream (if any) starts at position 0. */
  function PStage(st: State, key: seq<bv8>, mix: Mixing): (r: Fill)
    requires Valid(st)
    ensures Valid(r.st)
  {
    var x := State(XorKey(st.p, key), st.s);
    assert Valid(x);
    FillFrom(x, PArray, 0, Block(0, 0), mix, 0)
  }

  /** The whole schedule: `PStage`, then the `S` loop continuing the
      running block, with the salt stream (if any) at `sPos`. */
  function Schedule(st: State, key: seq<bv8>, mix: Mixing, sPos: nat): (r: State)
    requires Valid(st)
    ensures Valid(r)
  {
    var a := PStage(st, key, mix);
    FillFrom(a.st, SBoxes, 0, a.lr, mix, sPos).st
  }

  /** `_key(key, P, S)`. */
  function Key(st: State, key: seq<bv8>): (r: State)
    requires Valid(st)
    ensures Valid(r)
  {
    Schedule(st, key, Plain, 0)
  }

  /** `_ekskey(data, key, P, S)`: as `_key`, but two salt words are XORed
      into the running block before each encipher. The salt offset is reset
      to 0 for the `P` loop and carries on into the `S` loop: the nine `P`
      pairs read eighteen words, 72 bytes, so the `S` loop starts at stream
      position 72 (`SaltAfterP`). */
  function EksKey(st: State, data: seq<bv8>, key: seq<bv8>): (r: State)
    requires Valid(st)
    ensures Valid(r)
  {
    Schedule(st, key, Salted(data), 72)
  }

  /** The offset after `k` successive `_streamtoword` calls from `off`. */
  function ReadsFrom(data: seq<bv8>, off: nat, k: nat): (r: nat)
    requires OffsetOk(data, off)
    ensures OffsetOk(data, r)
    decreases k, 2
  {
    ReadsFromAfter(data, off, k, k == k)
  }

  /** `ReadsFrom` behind a one-step countdown, so that a goal about the
      offset does not unfold the words read on the way. */
  function ReadsFromAfter(data: seq<bv8>, off: nat, k: nat, wait: bool): (r: nat)
    requires OffsetOk(data, off)
    ensures OffsetOk(data, r)
    decreases k, if wait then 1 else 0
  {
    if wait then ReadsFromAfter(data, off, k, false)
    else if k == 0 then off else ReadsFrom(data, StreamToWord(data, off).off, k - 1)
  }

  lemma ReadsFromIs(data: seq<bv8>, off: nat, k: nat)
    requires OffsetOk(data, off)
    ensures ReadsFrom(data, off, k) == if k == 0 then off else ReadsFrom(data, StreamToWord(data, off).off, k - 1)
  {
    assert ReadsFromAfter(data, off, k, true) == ReadsFromAfter(data, off, k, false);
  }

  /** `k` reads from position `pos` end at position `pos + 4 * k`. */
  lemma {:induction false} ReadsFromAt(data: seq<bv8>, pos: nat, k: nat)
    ensures ReadsFrom(data, Offset(data, pos), k) == Offset(data, pos + 4 * k)
    decreases k
  {
    ReadsFromIs(data, Offset(data, pos), k);
    if k > 0 {
      StreamAt(data, pos);
      ReadsFromAt(data, pos + 4, k - 1);
    }
  }

  /** The eighteen salt reads of the `P` loop of `_ekskey`, from the start
      of the stream, leave the salt offset at stream position 72. */
  lemma SaltAfterP(data: seq<bv8>, count: nat)
    requires count == 2 * Pairs(PArray)
    ensures ReadsFrom(data, Offset(data, 0), count) == Offset(data, 72)
  {
    ReadsFromAt(data, 0, count);
  }

  /** Streams that agree on `n` bytes from `j` pack to the same word. */
  lemma {:induction false} PackAgree(a: seq<bv8>, b: seq<bv8>, j: nat, n: nat)
    requires forall i | j <= i < j + n :: ByteAt(a, i) == ByteAt(b, i)
    ensures Pack(a, j, n) == Pack(b, j, n)
    decreases n
  {
    if n > 0 {
      PackAgree(a, b, j, n - 1);
      assert ByteAt(a, j + n - 1) == ByteAt(b, j + n - 1);
    }
  }

  /** The key-XOR pass depends on the first 72 bytes of the key stream
      only. */
  lemma XorKeyAgree(p: seq<Word>, a: seq<bv8>, b: seq<bv8>)
    requires |p| == 18
    requires forall i | 0 <= i < 72 :: ByteAt(a, i) == ByteAt(b, i)
    ensures XorKey(p, a) == XorKey(p, b)
  {
    forall k | 0 <= k < 18
      ensures XorKey(p, a)[k] == XorKey(p, b)[k]
    {
      PackAgree(a, b, 4 * k, 4);
      WordAtIs(a, 4 * k);
      WordAtIs(b, 4 * k);
    }
  }

  /** Two keys whose cyclic streams agree on their first 72 bytes give the
      same state under both key schedules ... */
  lemma KeyStreamAgree(st: State, data: seq<bv8>, a: seq<bv8>, b: seq<bv8>)
    requires Valid(st)
    requires forall i | 0 <= i < 72 :: ByteAt(a, i) == ByteAt(b, i)
    ensures Key(st, a) == Key(st, b)
    ensures EksKey(st, data, a) == EksKey(st, data, b)
  {
    XorKeyAgree(st.p, a, b);
  }

  /** Two keys of at least 72 bytes that share their first 72 bytes. */
  predicate SamePrefix72(a: seq<bv8>, b: seq<bv8>)
  {
    |a| >= 72 && |b| >= 72 && a[..72] == b[..72]
  }

  /** ... so in particular keys of at least 72 bytes that share their first
      72 bytes: everything past byte 72 is ignored. */
  lemma KeyPrefix72(st: State, data: seq<bv8>, a: seq<bv8>, b: seq<bv8>)
    requires Valid(st)
    requires SamePrefix72(a, b)
    ensures Key(st, a) == Key(st, b)
    ensures EksKey(st, data, a) == EksKey(st, data, b)
  {
    forall i | 0 <= i < 72
      ensures ByteAt(a, i) == ByteAt(b, i)
    {
      assert a[i] == a[..72][i];
    }
    KeyStreamAgree(st, data, a, b);
  }

  // ---------------------------------------------------------------------
  // The fill loops pair by pair

  /** Replacing a table twice keeps the second replacement only. */
  lemma WithWith(st: State, t: Table, w: seq<Word>, v: seq<Word>)
    ensures With(With(st, t, w), t, v) == With(st, t, v)
  {
  }

  /** Putting a table's own contents back changes nothing. */
  lemma WithGet(st: State, t: Table)
    ensures With(st, t, Get(st, t)) == st
  {
  }

  /** The state under which pair `k` of table `t` is enciphered while the
      loop fills it: the first `k` pairs already hold their final values
      `R`, the rest still hold the values from before the loop. */
  function Stage(st: State, t: Table, R: seq<Word>, k: nat): (r: State)
    requires Valid(st) && |R| == 2 * Pairs(t) && k <= Pairs(t)
    ensures Valid(r)
  {
    With(st, t, R[..2 * k] + Get(st, t)[2 * k..])
  }

  /** A sequence that agrees with `T` below `n` spliced onto the rest of
      `T` is `T`. */
  lemma SpliceSame<X>(R: seq<X>, T: seq<X>, n: nat)
    requires n <= |R| && n <= |T|
    requires forall i | 0 <= i < n :: R[i] == T[i]
    ensures R[..n] + T[n..] == T
  {
  }

  /** The stage of pair `j` in the loop from pair `j` is the starting
      state. */
  lemma FillStage(st: State, t: Table, j: nat, lr: Block, mix: Mixing, pos: nat)
    requires Valid(st) && j <= Pairs(t)
    ensures Stage(st, t, Get(FillFrom(st, t, j, lr, mix, pos).st, t), j) == st
  {
    SpliceSame(Get(FillFrom(st, t, j, lr, mix, pos).st, t), Get(st, t), 2 * j);
    WithGet(st, t);
  }

  /** The first step of the loop from pair `j` stores `Out` as pair `j`. */
  lemma FillFirst(st: State, t: Table, j: nat, lr: Block, mix: Mixing, pos: nat)
    requires Valid(st) && j < Pairs(t)
    ensures PairAt(Get(FillFrom(st, t, j, lr, mix, pos).st, t), 2 * j) == Out(st, lr, mix, pos)
  {
    var st1 := Next(st, t, j, lr, mix, pos);
    var r := FillFrom(st1, t, j + 1, Out(st, lr, mix, pos), mix, pos + 8);
    assert FillFrom(st, t, j, lr, mix, pos) == r;
    assert Get(r.st, t)[2 * j] == Get(st1, t)[2 * j] && Get(r.st, t)[2 * j + 1] == Get(st1, t)[2 * j + 1];
  }

  /** A later pair `k` is enciphered under the same stage whether the loop
      is seen as starting at `j` or at `j + 1` after the first store. */
  lemma StageStep(st: State, t: Table, j: nat, lr: Block, mix: Mixing, pos: nat, R: seq<Word>, k: nat)
    requires Valid(st) && j < k <= Pairs(t) && |R| == 2 * Pairs(t)
    ensures Stage(Next(st, t, j, lr, mix, pos), t, R, k) == Stage(st, t, R, k)
  {
    var w := Get(Next(st, t, j, lr, mix, pos), t);
    assert w[2 * k..] == Get(st, t)[2 * k..];
    WithWith(st, t, Store(Get(st, t), 2 * j, Out(st, lr, mix, pos)), R[..2 * k] + w[2 * k..]);
  }

  /** The block a fill loop from pair `j` chains into pair `k`: `lr` for
      the first pair, the previous pair's value after that. */
  function Prev(R: seq<Word>, lr: Block, j: nat, k: nat): Block
    requires j <= k && 2 * k <= |R|
  {
    if k == j then lr else PairAt(R, 2 * k - 2)
  }

  /** Enciphering equal mixes under equal states gives equal pairs. */
  lemma EncipherMixSame(s1: State, s2: State, mix: Mixing, b1: Block, b2: Block, p1: nat, p2: nat)
    requires Valid(s1) && s1 == s2 && b1 == b2 && p1 == p2
    ensures Encipher(s1, Mix(mix, b1, p1)) == Encipher(s2, Mix(mix, b2, p2))
  {
  }

  /** Table `t` after the fill loop from pair `j`. */
  function FillRes(st: State, t: Table, j: nat, lr: Block, mix: Mixing, pos: nat): (R: seq<Word>)
    requires Valid(st) && j <= Pairs(t)
    ensures |R| == 2 * Pairs(t)
  {
    Get(FillFrom(st, t, j, lr, mix, pos).st, t)
  }

  /** The salt stream position at pair `k` of a loop that starts at pair
      `j` with the stream at `pos`: eight bytes per pair. */
  function SaltPos(pos: nat, j: nat, k: nat): nat
    requires j <= k
  {
    pos + 8 * (k - j)
  }

  /** Pair `k` of the fill loop from pair `j` is the encipherment, under
      the state at that point (`Stage`), of the previous output (`Prev`)
      mixed with the salt words at stream position `SaltPos(pos, j, k)`. */
  predicate PairIs(st: State, t: Table, j: nat, lr: Block, mix: Mixing, pos: nat, k: nat)
    requires Valid(st) && j <= k < Pairs(t)
  {
    var R := FillRes(st, t, j, lr, mix, pos);
    PairAt(R, 2 * k) == Encipher(Stage(st, t, R, k), Mix(mix, Prev(R, lr, j, k), SaltPos(pos, j, k)))
  }

  /** The first pair of the loop. */
  lemma PairIsFirst(st: State, t: Table, j: nat, lr: Block, mix: Mixing, pos: nat)
    requires Valid(st) && j < Pairs(t)
    ensures PairIs(st, t, j, lr, mix, pos, j)
  {
    FillFirst(st, t, j, lr, mix, pos);
    FillStage(st, t, j, lr, mix, pos);
    var R := FillRes(st, t, j, lr, mix, pos);
    EncipherMixSame(st, Stage(st, t, R, j), mix, lr, Prev(R, lr, j, j), pos, SaltPos(pos, j, j));
  }

  /** A later pair, seen from the loop after its first store, is the same
      pair seen from the loop's start. */
  lemma PairIsShift(st: State, t: Table, j: nat, lr: Block, mix: Mixing, pos: nat, k: nat)
    requires Valid(st) && j < k < Pairs(t)
    requires PairIs(Next(st, t, j, lr, mix, pos), t, j + 1, Out(st, lr, mix, pos), mix, pos + 8, k)
    ensures PairIs(st, t, j, lr, mix, pos, k)
  {
    FillFirst(st, t, j, lr, mix, pos);
    var e := Out(st, lr, mix, pos);
    var st1 := Next(st, t, j, lr, mix, pos);
    assert FillFrom(st, t, j, lr, mix, pos) == FillFrom(st1, t, j + 1, e, mix, pos + 8);
    var R := FillRes(st, t, j, lr, mix, pos);
    var R1 := FillRes(st1, t, j + 1, e, mix, pos + 8);
    assert R1 == R;
    StageStep(st, t, j, lr, mix, pos, R, k);
    assert Prev(R, e, j + 1, k) == Prev(R, lr, j, k);
    EncipherMixSame(Stage(st1, t, R1, k), Stage(st, t, R, k), mix,
      Prev(R1, e, j + 1, k), Prev(R, lr, j, k), SaltPos(pos + 8, j + 1, k), SaltPos(pos, j, k));
  }

  /** The fill loop from pair `j`, pair by pair (`PairIs`). Together with
      `FillFrom`'s frame this says the loop overwrites every pair of `t`,
      in index order, with the successive encipher outputs, and nothing
      else. */
  lemma {:induction false} FillPair(st: State, t: Table, j: nat, lr: Block, mix: Mixing, pos: nat, k: nat)
    requires Valid(st) && j <= k < Pairs(t)
    ensures PairIs(st, t, j, lr, mix, pos, k)
    decreases Pairs(t) - j, 1
  {
    if k == j {
      PairIsFirst(st, t, j, lr, mix, pos);
    } else {
      FillPairLater(st, t, j, lr, mix, pos, k);
    }
  }

  /** The pairs after the first, through the loop from pair `j + 1`. */
  lemma {:induction false} FillPairLater(st: State, t: Table, j: nat, lr: Block, mix: Mixing, pos: nat, k: nat)
    requires Valid(st) && j < k < Pairs(t)
    ensures PairIs(st, t, j, lr, mix, pos, k)
    decreases Pairs(t) - j, 0
  {
    FillPair(Next(st, t, j, lr, mix, pos), t, j + 1, Out(st, lr, mix, pos), mix, pos + 8, k);
    PairIsShift(st, t, j, lr, mix, pos, k);
  }

  /** Every pair of table `t` from pair `j` on is as `PairIs` says. */
  predicate AllPairs(st: State, t: Table, j: nat, lr: Block, mix: Mixing, pos: nat)
    requires Valid(st) && j <= Pairs(t)
  {
    forall k | j <= k < Pairs(t) :: PairIs(st, t, j, lr, mix, pos, k)
  }

  /** The `P` loop of `_key` and `_ekskey`: starting from the key-XORed
      `P` and the block `(0, 0)`, with the salt stream at 0, it refills
      every `P` pair with the chained encipher outputs (`PairIs`). */
  lemma PLoop(st: State, key: seq<bv8>, mix: Mixing)
    requires Valid(st)
    ensures Valid(State(XorKey(st.p, key), st.s))
    ensures AllPairs(State(XorKey(st.p, key), st.s), PArray, 0, Block(0, 0), mix, 0)
    ensures PStage(st, key, mix).st.p == FillRes(State(XorKey(st.p, key), st.s), PArray, 0, Block(0, 0), mix, 0)
    ensures PStage(st, key, mix).st.s == st.s
  {
    var x := State(XorKey(st.p, key), st.s);
    assert Valid(x);
    forall k | 0 <= k < 9
      ensures PairIs(x, PArray, 0, Block(0, 0), mix, 0, k)
    {
      FillPair(x, PArray, 0, Block(0, 0), mix, 0, k);
    }
  }

  /** The `S` loop of `_key` and `_ekskey` leaves `P` as the `P` loop
      left it and continues the running block from the last `P` pair; the
      `S` boxes are the table it fills. */
  lemma SLoopFrame(st: State, key: seq<bv8>, mix: Mixing, sPos: nat)
    requires Valid(st)
    ensures Valid(PStage(st, key, mix).st)
    ensures Schedule(st, key, mix, sPos).s == FillRes(PStage(st, key, mix).st, SBoxes, 0, PStage(st, key, mix).lr, mix, sPos)
    ensures Schedule(st, key, mix, sPos).p == PStage(st, key, mix).st.p
    ensures PStage(st, key, mix).lr == PairAt(PStage(st, key, mix).st.p, 16)
  {
  }

  /** The `S` loop refills every `S` pair with the chained encipher
      outputs, with the salt stream at `sPos` (`PairIs`). */
  lemma SLoop(st: State, key: seq<bv8>, mix: Mixing, sPos: nat)
    requires Valid(st)
    ensures Valid(PStage(st, key, mix).st)
    ensures AllPairs(PStage(st, key, mix).st, SBoxes, 0, PStage(st, key, mix).lr, mix, sPos)
  {
    var a := PStage(st, key, mix);
    forall k | 0 <= k < 512
      ensures PairIs(a.st, SBoxes, 0, a.lr, mix, sPos, k)
    {
      FillPair(a.st, SBoxes, 0, a.lr, mix, sPos, k);
    }
  }

  // ---------------------------------------------------------------------
  // The expensive schedule with a zero salt

  /** A stream of zero bytes packs to the zero word. */
  lemma {:induction false} PackZero(data: seq<bv8>, j: nat, n: nat)
    requires forall i | 0 <= i < |data| :: data[i] == 0
    ensures Pack(data, j, n) == 0
    decreases n
  {
    if n > 0 {
      PackZero(data, j, n - 1);
      assert ByteAt(data, j + n - 1) == 0;
    }
  }

  /** XORing the words of a zero salt leaves the block as it is. */
  lemma MixZero(data: seq<bv8>, lr: Block, pos: nat, q: nat)
    requires forall i | 0 <= i < |data| :: data[i] == 0
    ensures Mix(Salted(data), lr, pos) == Mix(Plain, lr, q)
  {
    PackZero(data, pos, 4);
    PackZero(data, pos + 4, 4);
    WordAtIs(data, pos);
    WordAtIs(data, pos + 4);
  }

  /** Enciphering equal blocks gives equal results. */
  lemma OutSame(st: State, lr: Block, m1: Mixing, m2: Mixing, p1: nat, p2: nat)
    requires Valid(st) && Mix(m1, lr, p1) == Mix(m2, lr, p2)
    ensures Out(st, lr, m1, p1) == Out(st, lr, m2, p2)
  {
  }

  /** With a zero salt, a salted fill loop is the plain one. */
  lemma {:induction false} FillZero(st: State, t: Table, j: nat, lr: Block, data: seq<bv8>, pos: nat, q: nat)
    requires Valid(st) && j <= Pairs(t)
    requires forall i | 0 <= i < |data| :: data[i] == 0
    ensures FillFrom(st, t, j, lr, Salted(data), pos) == FillFrom(st, t, j, lr, Plain, q)
    decreases Pairs(t) - j
  {
    if j < Pairs(t) {
      MixZero(data, lr, pos, q);
      OutSame(st, lr, Salted(data), Plain, pos, q);
      var e := Out(st, lr, Plain, q);
      assert Next(st, t, j, lr, Salted(data), pos) == Next(st, t, j, lr, Plain, q);
      FillZero(Next(st, t, j, lr, Plain, q), t, j + 1, e, data, pos + 8, q + 8);
      assert FillFrom(st, t, j, lr, Salted(data), pos)
          == FillFrom(Next(st, t, j, lr, Plain, q), t, j + 1, e, Salted(data), pos + 8);
      assert FillFrom(st, t, j, lr, Plain, q)
          == FillFrom(Next(st, t, j, lr, Plain, q), t, j + 1, e, Plain, q + 8);
    }
  }

  /** A salted schedule with a zero salt is the plain schedule. */
  lemma ScheduleZero(st: State, key: seq<bv8>, data: seq<bv8>, sPos: nat, q: nat)
    requires Valid(st)
    requires forall i | 0 <= i < |data| :: data[i] == 0
    ensures Schedule(st, key, Salted(data), sPos) == Schedule(st, key, Plain, q)
  {
    PStageZero(st, key, data);
    var a := PStage(st, key, Plain);
    FillZero(a.st, SBoxes, 0, a.lr, data, sPos, q);
  }

  lemma PStageZero(st: State, key: seq<bv8>, data: seq<bv8>)
    requires Valid(st)
    requires forall i | 0 <= i < |data| :: data[i] == 0
    ensures PStage(st, key, Salted(data)) == PStage(st, key, Plain)
  {
    var x := State(XorKey(st.p, key), st.s);
    FillZero(x, PArray, 0, Block(0, 0), data, 0, 0);
  }

  /** `_ekskey` with an all-zero (or empty) salt is `_key`: XORing zero
      words into the running block changes nothing. */
  lemma EksKeyZeroSalt(st: State, data: seq<bv8>, key: seq<bv8>)
    requires Valid(st)
    requires forall i | 0 <= i < |data| :: data[i] == 0
    ensures EksKey(st, data, key) == Key(st, key)
  {
    ScheduleZero(st, key, data, 72, 0);
  }
}
