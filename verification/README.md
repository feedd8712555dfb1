# bcrypt.js in Dafny

A model of the core of bcrypt.js, a pure-JavaScript implementation of the
bcrypt password hash (Provos and Mazières, 1999). The model covers:

- the Blowfish engine of `src/bcrypt/impl.js`: `_encipher`, `_streamtoword`,
  `_key`, `_ekskey` and `_crypt`, including the time-sliced `next()` loop;
- the salt parser and the `finish` assembler of `Impl.prototype.hash`;
- bcrypt's own base64 (`src/base64.js`);
- the public `genSaltSync`, `hashSync`, `compareSync`, `getRounds` and
  `getSalt` (`src/bcrypt.js`);
- `utf8_encode_char` (`src/utf8/native.js`), which follows section 3 of
  RFC 3629;
- the `codePointAt` polyfill (`src/utf8/codepoint.js`), which follows
  section 2.2 of RFC 2781.

Everything is written as pure functions over immutable values. JavaScript
values are modelled like this:

- A string is a sequence of UTF-16 code units, in module `Js`.
- A byte array is a sequence of numbers that the engine masks with `& 0xff`.
- A thrown error is the `Err` case of a `Result`.
- Blowfish words are `bv32`: JavaScript's int32 `+`, `^`, `>>>` and `&`
  wrap exactly like bit-vector arithmetic.

## Modules

| file | module | what it models |
|---|---|---|
| `js.dfy` | `Js` | strings, bytes, `Result`, `Number` (an integer or `NaN`), `charAt`, `substring` |
| `codepoint.dfy` | `CodePoint` | `codePointAt`, and UTF-16 encoding as its reference |
| `utf8.dfy` | `Utf8` | `utf8_encode_char`, a reference decoder, the string-to-bytes driver, "truncates" |
| `base64.dfy` | `Base64` | `BASE64_CODE`, `BASE64_INDEX`, `encode`, `decode`, the test vectors |
| `blowfish.dfy` | `Blowfish` | `_encipher`, its inverse, `_streamtoword`, `_key`, `_ekskey` |
| `slicing.dfy` | `Slicing` | the resumable `next()` loop, for any round function |
| `crypt.dfy` | `Crypt` | `_crypt`: range checks, `_ekskey`, `2^rounds` rounds, 64 encipher passes, digest bytes |
| `impl.dfy` | `Impl` | `Impl.prototype.hash`: salt checks, password bytes, `_crypt`, `finish` |
| `bcrypt.dfy` | `Api` | `genSaltSync`, `hashSync`, `compareSync`, `split`/`parseInt`, `getRounds`, `getSalt` |

### Behaviour worth knowing

The model follows `src/bcrypt.js` and `src/bcrypt/impl.js` as written.
Several of their behaviours are easy to miss:

- **Version written by `genSaltSync`.** It writes `$2a$`
  (src/bcrypt.js:109). The repository's tests import an `index.js` that is
  not part of this model, and they expect `$2b$` from `genSaltSync`
  (tests/index.js:63-69).
- **Out-of-range cost in `genSaltSync`.** It throws "Illegal number of
  rounds" (src/bcrypt.js:106-107). The tests expect the cost to be clamped
  to 04 and 31 instead, and a cost of 0 to mean the default of 10
  (tests/index.js:215-228). In the code modelled here, 0 is a number below
  4 and throws.
  A `NaN` cost passes the range test, because every comparison with `NaN`
  is false. The salt is then `$2a$NaN$...`, which `hash` rejects with
  "Missing salt rounds". `Api.HashSyncNaN` states this.
- **The rounds terminator.** `hash` rejects a salt only when the character
  after the two rounds digits compares greater than `'$'`
  (src/bcrypt/impl.js:368). Any character up to `'$'` is accepted,
  including a missing one. Non-digit rounds become `NaN`, which also passes
  the range test of `_crypt`. Such a hash is computed with one round
  (`(1 << NaN) >>> 0` is 1) and written back with the rounds field `NaN`.
  `Impl.NaNRounds` states this.
- **Decoded salt length.** The 22 salt characters are decoded leniently
  (src/base64.js:94-125). A short or malformed salt yields fewer than 16
  bytes, and `_crypt` then fails with "Illegal salt length"
  (src/bcrypt/impl.js:245-252).
- **The fourth character of a base64 group is not checked**
  (src/base64.js:119-123). An invalid one makes the value `-1 | ...`, which
  `String.fromCharCode` turns into 0xFFFF. `decode` therefore returns code
  units rather than bytes. The engine only ever reads them through `& 0xff`.
- **Salts with no minor version.** A `$2$` salt gives a 59-character hash,
  and `compareSync` treats every such hash as non-matching
  (src/bcrypt.js:197-198). `Api.CompareHash` states this.

### Assumptions

- `P_ORIG`, `S_ORIG` and `C_ORIG` come from `constants.js`, which is not part
  of this model. They are a parameter `Crypt.Constants`. `Crypt.ConstantsOk`
  requires lengths 18, 1024 and 6.
- `base64Utils.encode`/`decode` (src/bcrypt/impl.js:2) and `base64_encode`
  (src/bcrypt.js:114) come from `util/base64.js`, which src/bcrypt/util.js:22
  includes and which is not part of this model. They are assumed to behave
  as `base64.encode` and `base64.decode` of src/base64.js, and `Base64.Encode`
  and `Base64.Decode` stand for them.
- `utf8Array`, the string-to-bytes driver behind `stringToBytes`
  (src/bcrypt/util.js:20), is not part of this model either. `Utf8.Utf8Array`
  stands in for it: it walks the string with `codePointAt`, skips the second
  half of each surrogate pair, and concatenates the `utf8_encode_char` bytes.
- The random bytes of `genSaltSync` are a parameter.
- The wall-clock budget of `next()` is a parameter `quota`: call number `n`
  runs at most `quota(n)` rounds, and at least one.

## Model

| member | source | states |
|---|---|---|
| `CodePoint.CodePointAt` | src/utf8/codepoint.js:68-97 | `undefined` exactly when the start index is negative or past the end. A missing or `NaN` position counts as index 0. A defined result lies in [0, 0x10FFFF]. It is at least 0x10000 exactly when a high surrogate followed by a low one starts there; otherwise it is the code unit itself. |
| `CodePoint.DecodeUtf16Pair` | src/utf8/codepoint.js:86-94 | Decoding the surrogate pair of a supplementary code point gives the code point back. |
| `CodePoint.DecodeUtf16Single` | src/utf8/codepoint.js:84-96 | A basic-plane code unit decodes to itself, unless it is a high surrogate followed by a low one. |
| `CodePoint.PairIsUtf16` | src/utf8/codepoint.js:86-94 | Conversely, every surrogate pair is the UTF-16 form of the code point it decodes to. |
| `Utf8.EncodeChar` | src/utf8/native.js:8-27 | Throws `RangeError` exactly for a code point outside [0, 0x10FFFF]. Otherwise `out` is kept as a prefix and 1, 2, 3 or 4 bytes are appended for code points below 0x80, 0x800, 0x10000 and 0x110000. The appended bytes are a lead byte of the right form followed by `10xxxxxx` continuation bytes, all in [0, 255]. |
| `Utf8.DecodeEncoded` | src/utf8/native.js:11-24 | The appended bytes decode back to the code point under the RFC 3629 reading, and decoding consumes exactly those bytes. |
| `Utf8.EncodeCharInjective` | src/utf8/native.js:8-27 | Two code points with the same encoding are equal. |
| `Utf8.CodePointEncodes` | src/utf8/codepoint.js:80-96 | Every value `codePointAt` returns is accepted by `utf8_encode_char`. |
| `Utf8.DecodeUtf8Array` | src/bcrypt/util.js:20 | Decoding the bytes of the string-to-bytes driver yields exactly the code points its walk over the string visits. |
| `Utf8.WalkCovers` | src/utf8/codepoint.js:84-96 | The walk skips and splits nothing: writing the code points it visits from index `i` back as UTF-16 gives the string from `i` on. |
| `Utf8.Utf8ArrayLossless` | src/bcrypt/util.js:20 | No character is lost: the UTF-8 bytes of a string decode to code points whose UTF-16 form is the string itself, lone surrogates included. |
| `Utf8.TruncatesVectors` | tests/index.js:122-125 | The empty string and 72 'a's fit in the 72 bytes the key schedule reads; 73 'a's do not. |
| `Base64.TablesInverse` | src/base64.js:13-32 | `BASE64_CODE` has 64 symbols, all below 128. `BASE64_INDEX` maps each symbol back to its position, and maps a code to -1 exactly when it is not a symbol. |
| `Base64.SymIsCode` | src/base64.js:13-18 | The arithmetic symbol function is the `BASE64_CODE` table, and the index table inverts it. |
| `Base64.Encode` | src/base64.js:48-78 | Throws exactly when `len <= 0` or `len > b.length`. Otherwise emits `4*(len/3)` characters plus `len%3 + 1` for a partial group, with no padding. |
| `Base64.EncodeAlphabet` | src/base64.js:56-76 | Every character `encode` emits is one of the 64 symbols. |
| `Base64.EncodeLow` | src/base64.js:57-72 | `encode` sees only the low byte of each element: inputs that agree after `& 0xff` encode alike. |
| `Base64.Decode` | src/base64.js:87-131 | Throws exactly when `len <= 0`. Otherwise returns at most `len` values. |
| `Base64.DecodeEncode` | src/base64.js:48-131 | Round trip: for `1 <= n <= b.length`, `decode(encode(b, n), n)` is the first `n` elements masked to bytes, which is `b[..n]` for byte input. |
| `Base64.DecodeStops` | src/base64.js:94-112 | A character outside the alphabet at the 1st, 2nd or 3rd position of a group ends decoding with what was produced before it. |
| `Base64.DecodeUncheckedFourth` | src/base64.js:119-123 | An invalid 4th character does not stop decoding: `"...*"` decodes to 0, 0, 0xFFFF. |
| `Base64.EncodeVector` | tests/index.js:9-19 | Bytes 0x00..0x10 with `len` 16 encode to `"..CA.uOD/eaGAOmJB.yMBu"`. |
| `Base64.DecodeVector` | tests/index.js:20-30 | `"..CA.uOD/eaGAOmJB.yMBv."` with `len` 16 decodes to 0x00..0x0f. |
| `Blowfish.EncipherAt` | src/bcrypt/impl.js:22-138 | `_encipher` changes only `lr[off]` and `lr[off+1]`. The new pair is the Blowfish encipherment of the old one: `l ^= P[0]`, 16 half-rounds with `P[1..16]` and `F`, then `(r ^ P[17], l)`. |
| `Blowfish.DecipherEncipher` | src/bcrypt/impl.js:22-138 | Deciphering with the reversed P schedule undoes enciphering under the same state. |
| `Blowfish.EncipherDecipher` | src/bcrypt/impl.js:22-138 | Enciphering undoes deciphering, so `_encipher` is a permutation of 64-bit blocks. |
| `Blowfish.WordBytesBe` | src/bcrypt/impl.js:290-294 | The big-endian split of a packed word gives back its four bytes. |
| `Blowfish.StreamToWord` | src/bcrypt/impl.js:146-151 | `_streamtoword` returns the big-endian word of the four bytes at `offp..offp+3`, taken cyclically, and the offset `(offp + 4) mod length`. |
| `Blowfish.WordAtBe` | src/bcrypt/impl.js:147-149 | The word shifted in byte by byte is the big-endian word of the four cyclic bytes. |
| `Blowfish.StreamAt` | src/bcrypt/impl.js:146-151 | Reading from the reduced offset of stream position `pos` gives the word at `pos`, and ends at the reduced offset of `pos + 4`. |
| `Blowfish.XorKey` | src/bcrypt/impl.js:165-168 | The key pass replaces `P[k]` with `P[k] ^` the key word at stream position `4k`, for every k. |
| `Blowfish.FillFrom` | src/bcrypt/impl.js:169-176 | A fill loop keeps the other table unchanged and the pairs before its start. It leaves the last pair it stored as the chaining block. |
| `Blowfish.FillPair` | src/bcrypt/impl.js:198-217 | Pair `k` of a fill loop is the encipherment, under the state at that point, of the previous pair XORed with the two salt words at stream position `pos + 8(k - j)`. The salt position carries across pairs. |
| `Blowfish.SaltAfterP` | src/bcrypt/impl.js:197-204 | The 18 salt reads of the P loop of `_ekskey` end at stream position 72, where the S loop continues. |
| `Blowfish.KeyPrefix72` | src/bcrypt/impl.js:165-168 | `_key` and `_ekskey` read exactly 72 key bytes: two keys of at least 72 bytes that share their first 72 bytes give the same state. |
| `Blowfish.KeyStreamAgree` | src/bcrypt/impl.js:193-196 | More generally, keys whose cyclic streams agree on the first 72 bytes give the same state. |
| `Blowfish.Key` | src/bcrypt/impl.js:159-177 | `_key` keeps `P` at 18 words and `S` at 1024. |
| `Blowfish.EksKey` | src/bcrypt/impl.js:187-218 | `_ekskey` keeps `P` at 18 words and `S` at 1024. |
| `Blowfish.PLoop` | src/bcrypt/impl.js:165-172 | The `P` loop of `_key` and `_ekskey` starts from the key-XORed `P` and the block `(0, 0)`, leaves `S` alone, and overwrites every `P` pair with the chained encipher outputs, the salt stream starting at 0. |
| `Blowfish.SLoopFrame` | src/bcrypt/impl.js:169-176 | The `S` loop leaves `P` as the `P` loop left it, continues from the last `P` pair as the running block, and fills only `S`. |
| `Blowfish.SLoop` | src/bcrypt/impl.js:173-176 | The `S` loop overwrites every `S` pair with the chained encipher outputs, the salt stream continuing at its given position. |
| `Blowfish.EksKeyZeroSalt` | src/bcrypt/impl.js:187-218 | With an all-zero salt, `_ekskey` is `_key`: the salt XORs are the only difference. |
| `Slicing.Slice` | src/bcrypt/impl.js:276-284 | One call of `next()` with rounds left runs at least one round, at most its quota, and the full quota unless the rounds run out. |
| `Slicing.SlicingInvariant` | src/bcrypt/impl.js:273-303 | The result of the synchronous driver does not depend on how the rounds are sliced: any two schedules give the same digest. |
| `Slicing.DriveDigest` | src/bcrypt/impl.js:273-315 | The driver's result is the final step applied to the state after all remaining rounds. |
| `Slicing.DriveProgress` | src/bcrypt/impl.js:274-275 | The counter `i` reported to the progress callback starts at its current value, never goes down, stays at most `rounds`, and is last reported as `rounds`. |
| `Slicing.DriveCalls` | src/bcrypt/impl.js:273-303 | `next()` is called at most once per round, plus once to finish. |
| `Crypt.CryptSync` | src/bcrypt/impl.js:231-316 | `_crypt` fails with "Illegal number of rounds" for rounds below 4 or above 31, and otherwise with "Illegal salt length" unless the salt has 16 bytes. Otherwise it returns the 24-byte bcrypt digest for `(1 << rounds) >>> 0` rounds. |
| `Crypt.BcryptIs` | src/bcrypt/impl.js:266-294 | The digest is `_ekskey(salt, b)` on fresh copies of the constants, then `2^rounds` times `_key(b)` and `_key(salt)`, then 64 encipher passes over `C_ORIG`, split big-endian. |
| `Crypt.PassFromPairs` | src/bcrypt/impl.js:286-288 | In one pass over the constant block, each word pair comes out enciphered, independently of the others. |
| `Crypt.WordsBytesInverse` | src/bcrypt/impl.js:290-294 | The 4 bytes pushed for word `i` are its big-endian split, so the words can be read back from them. |
| `Crypt.RunProgress` | src/bcrypt/impl.js:273-303 | Progress `i / rounds` is first reported as 0 and last as 1. It never goes down in between, and there are at most `2^rounds + 1` reports. |
| `Crypt.BcryptPrefix72` | src/bcrypt/impl.js:266-281 | Passwords whose byte arrays share their first 72 bytes give the same digest. |
| `Crypt.BcryptMasked` | src/bcrypt/impl.js:146-151 | Only the low byte of each password and salt element reaches the digest. |
| `Impl.ParseSalt` | src/bcrypt/impl.js:342-379 | The salt checks of `hash`, in order. "Invalid salt version" is returned exactly when the salt does not start with `$2`. "Invalid salt revision" is returned exactly when it continues neither with `$` nor with a, b or y followed by `$`. "Missing salt rounds" is returned exactly when the character after the two rounds digits compares above `'$'`. A salt that passes yields the minor version, the two-digit `parseInt` rounds, and the 22-character salt text. |
| `Impl.Finish` | src/bcrypt/impl.js:391-404 | `finish` emits 59 characters plus one for a minor version and one for `NaN` rounds, so 60 for every accepted salt with digits and a minor version. |
| `Impl.HashSpec` | src/bcrypt/impl.js:328-408 | `hash` fails with the salt-check error, then with the error of `_crypt`. Otherwise it returns `finish` of the digest of the password bytes, which are the UTF-8 bytes with a NUL appended iff minor is at least 'a'. |
| `Impl.ParseHeader` | src/bcrypt/impl.js:342-379 | The header `finish` writes parses back to its minor version and rounds, and to the next 22 characters as salt text. |
| `Impl.FinishSplit` | src/bcrypt/impl.js:391-404 | Without its last 31 characters, a hash string is the header followed by the 22-character encoded salt. |
| `Impl.Rehash` | src/bcrypt/impl.js:342-404 | Hashing the same password with a hash string minus its last 31 characters reproduces the hash string. |
| `Impl.HashSixty` | src/bcrypt/impl.js:391-404 | A hash with numeric rounds has 60 characters iff the salt had a minor version. |
| `Impl.HashPrefix72` | src/bcrypt/impl.js:380-383 | ASCII passwords that share their first 72 characters hash alike. |
| `Impl.NaNRounds` | src/bcrypt/impl.js:376-378 | For `$2a$$$$` plus a salt text, both digits parse to `NaN`. `NaN` passes the range check and shifts to one round, and the hash is assembled with the rounds field `NaN`. |
| `Api.GenSaltSync` | src/bcrypt.js:101-116 | A missing cost becomes 10. A non-number throws "Illegal arguments", and a cost outside [4, 31] throws "Illegal number of rounds". Fewer than 16 random values make `encode` throw. A salt is 29 characters long (30 for `NaN`). |
| `Api.GenSaltHeader` | src/bcrypt.js:108-115 | A generated salt is the header `finish` writes for minor 'a' and that cost, followed by the 22-character encoding of the 16 random bytes. |
| `Api.GenSaltParses` | src/bcrypt.js:108-115 | A generated salt with a numeric cost passes the salt checks of `hash` with minor 'a' and that cost. With `NaN` it fails with "Missing salt rounds". |
| `Api.SaltArgumentCases` | src/bcrypt.js:155-158 | `hashSync` replaces a missing or numeric salt with the result of `genSaltSync`, and passes a string salt unchanged. |
| `Api.HashSync` | src/bcrypt.js:154-162 | A non-string salt other than a number or `undefined` gives "Illegal arguments". A string salt with a non-string password gives "Illegal arguments"; with a string password it is `hash` of both. A missing or numeric salt is first generated by `genSaltSync`, whose error wins. A non-string password never yields a hash. |
| `Api.HashSyncGenerated` | src/bcrypt.js:154-162 | For a hash `hashSync` made with a generated salt: `compareSync` of the same password is true, `getRounds` gives back the cost, and `getSalt` gives back the salt. |
| `Api.HashSyncNaN` | src/bcrypt.js:154-162 | `hashSync(s, NaN)` fails with "Missing salt rounds". |
| `Api.SameString` | src/bcrypt.js:199-207 | The comparison loop visits every index, with no early exit, and yields true iff the two strings are equal. |
| `Api.CompareSync` | src/bcrypt.js:194-208 | `compareSync` with its loop computes `Compare`. |
| `Api.CompareSixty` | src/bcrypt.js:197-207 | On a 60-character hash, `compareSync` re-hashes with its first 29 characters and returns whether the result is the hash. |
| `Api.CompareHash` | src/bcrypt.js:194-208 | A password matches every hash made from it with numeric rounds and a minor version. With no minor version, the 59-character hash matches nothing. |
| `Api.CompareShort` | src/bcrypt.js:197-198 | A hash of any length other than 60 matches no password. |
| `Api.JoinSplit` | src/bcrypt.js:242 | `split` loses nothing: the pieces contain no separator, and joining them gives the string back. |
| `Api.ParseIntDigits` | src/bcrypt.js:242 | `parseInt` of digits followed by a non-digit is the value of the digits. |
| `Api.ParseIntNoDigit` | src/bcrypt.js:242 | `parseInt` of a text that starts with no space, sign or digit is `NaN`. |
| `Api.GetRounds` | src/bcrypt.js:239-243 | `getRounds` throws exactly when its argument is not a string. |
| `Api.GetRoundsHash` | src/bcrypt.js:239-243 | `getRounds` of a hash `hash` returned is the rounds of the salt it was made with, `NaN` included. |
| `Api.GetSalt` | src/bcrypt.js:252-258 | Throws for a non-string and for a length other than 60. Otherwise returns the first 29 characters. |

## Left out

- Randomness (`random`, `setRandomFallback`, src/bcrypt.js:55-91) and
  src/isaac.js: the 16 random values are a parameter of `genSaltSync`.
- The callback and promise variants `genSalt`, `hash` and `compare`
  (src/bcrypt.js:125-145, 173-184, 220-230), `nextTick` and the promise
  polyfill. They do not simply run the synchronous steps:
  - Async `compare` (src/bcrypt.js:220-230) has no length test and always
    re-hashes with `hash.substr(0, 29)`, then compares with `===`. For the
    59-character hash of a `$2$` salt, that cut is the header, the 22 salt
    characters and one digest character. It parses with no minor version
    and re-hashes to the same string, so `compare` answers true where
    `compareSync` answers false.
  - Async `hash` (src/bcrypt.js:173-184) has no default cost: a missing salt
    ends in "Illegal arguments". When `genSalt` fails, its error is dropped
    and `_hash` is called with an undefined salt.
  - Progress reaches a callback only on the asynchronous path:
    `progressCallback` is passed to `_crypt` only at
    src/bcrypt/impl.js:412-417, and the synchronous call at
    src/bcrypt/impl.js:408 passes none. `Slicing.DriveProgress` and
    `Crypt.RunProgress` state the values `next()` would report there,
    because the asynchronous path uses the same `next()`.
- The clock: `Date.now()` in `next()` is the abstract `quota` schedule.
  MAX_EXECUTION_TIME is therefore not modelled.
- Timing resistance of `compareSync`: only its result is modelled.
- The `typeof` checks of `Impl.prototype.hash` (src/bcrypt/impl.js:330): its
  callers pass strings. The public functions' `typeof` checks are modelled
  through `Api.Value`.
- JavaScript numbers other than integers and `NaN`: fractional and infinite
  costs and positions, `-0`, and the precision limit of `parseInt` on very
  long digit runs.
- `Int32Array` versus `slice` (src/bcrypt/impl.js:258-264): a storage detail.
  The key schedules work on values.
- The contents of `P_ORIG`, `S_ORIG` and `C_ORIG`: they are a parameter, and
  only their lengths are fixed.
- `seed_length` of `genSaltSync`: it is ignored by the source.
- The commented-out `fromCodePoint` polyfill and the installation of
  `codePointAt` on `String.prototype` (src/utf8/codepoint.js:2-62, 98-106).
- `Blowfish.Key`: its own contract gives only the table sizes. What the
  tables hold is stated loop by loop by `Blowfish.XorKey`, `Blowfish.PLoop`,
  `Blowfish.SLoopFrame` and `Blowfish.SLoop`, with `Plain` mixing; a closed
  form of 521 chained encipherments would say nothing more.
- `Blowfish.EksKey`: likewise, with `Salted` mixing and the `S` loop's salt
  stream at position 72 (`Blowfish.SaltAfterP`).
- `Utf8.DecodeChar` is a reference decoder for stating round trips. It does
  not reject overlong forms or surrogate code points, which
  `utf8_encode_char` never produces from its own input.
