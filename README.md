# XXTEA in Dafny

A model of the XXTEA block cipher library `xxtea` (Wheeler and Needham, "Correction to
xtea", 1998) as its Rust source implements it, with proofs about it.

The cipher works in place on a buffer of at least two unsigned 32-bit words and a key of
four words:
- Encryption runs `6 + 52 / n` rounds over the buffer.
- Each round adds DELTA (`0x9E3779B9`) to a checksum `sum` (wrapping).
- Within a round, each word, from the first to the last, gets `mx(...)` added to it (wrapping).
- `mx` mixes the word's two cyclic neighbours, the checksum, and one key word, chosen by
  `(p & 3) ^ e` with `e = (sum >> 2) & 3`.
- Decryption starts from the checksum `q * DELTA` that encryption ends with. It walks the
  words from the last to the first, subtracting the same `mx` values, until the checksum is 0.

The public entry points `encrypt` and `decrypt` take byte buffers:
- A guard checks the sizes and the alignment, in a fixed order.
- The 16-byte key and the data are then read as words in the platform's byte order, and the
  data is transformed in place.

The model has four modules:

- `XxteaSpec` (`xxtea_spec.dfy`): the pure specification.
  - Words are `Word`, an integer newtype below 2^32, with wrapping `Add`/`Sub`/`Mul`.
  - Exclusive or and the shifts are defined on integers. Lemmas tie them to bits and to
    powers of two.
  - `Mx` follows the source expression operator by operator.
  - A round is a sequence of uniform steps. Step p replaces `w[p]` by `w[p] ± Mx(sum, w[p+1], w[p-1], p, e, k)`,
    with indices taken cyclically.
  - `EncRound` runs the steps upwards and `DecRound` downwards. `Encrypt`/`Decrypt` run the rounds.
  - Its lemmas give the update order of a round, step and round inverses, the checksum
    schedule, and both round trips.
- `XxteaWords` (`xxtea_words.dfy`): `encrypt_words` and `decrypt_words` as methods on an
  `array<Word>`. Their nested loops are proved against `Encrypt`/`Decrypt`, and
  `DecryptWords` also returns (as a ghost value) the number of rounds its `while sum != 0`
  loop runs.
- `XxteaBytes` (`xxtea_bytes.dfy`): the byte-level layer.
  - The guard `check_sizes_and_alignment` is a function returning `Pass` or the first violated check.
  - The byte/word view is parameterised by byte order.
  - `encrypt`/`decrypt` are methods on an `array<Byte>`.
  - The round trip of the test suite is a method.
- `KeySlice` (`key_slice.dfy`): the key slice that `encrypt`/`decrypt` actually pass
  down. It holds `data.len() / 4` words, not four (see Findings). The word transforms are
  re-run against a slice of any length, with an out-of-range key index as an abort.

## Model

| member | source | states |
|---|---|---|
| XxteaSpec.AddSubCancel | src/xxtea.rs:43 | `wrapping_sub` of a value undoes `wrapping_add` of it, and conversely |
| XxteaSpec.Rounds | src/xxtea.rs:13 | the round count `6 + 52 / len` lies between 6 and 32 for every buffer of two words or more |
| XxteaSpec.RoundsExtremes | src/xxtea.rs:13 | the count is 32 exactly for two words and 6 exactly for more than 52 words |
| XxteaSpec.XorBitsBit | src/xxtea.rs:4-5 | bit i of the modelled `^` is set exactly when bit i is set in just one operand |
| XxteaSpec.XorBitsInvolution | src/xxtea.rs:5 | xoring with the same value twice gives the original value |
| XxteaSpec.ShrBit | src/xxtea.rs:4 | the modelled `a >> n` has bit i equal to bit i + n of `a` |
| XxteaSpec.ShlMul | src/xxtea.rs:4 | the modelled `a << n` is `a * 2^n` with bits past 31 dropped |
| XxteaSpec.Selector | src/xxtea.rs:16 | the round selector `(sum >> 2) & 3` is at most 3 |
| XxteaSpec.SelectorBits | src/xxtea.rs:39 | the selector consists of bits 2 and 3 of the checksum |
| XxteaSpec.KeyIndex | src/xxtea.rs:5 | the key index `(p & 3) ^ e` is below 4, so `mx` never reads past a 4-word key |
| XxteaSpec.Mx | src/xxtea.rs:3-6 | the source expression operator by operator, with `^ z` in the key term; defined only when the key index is inside the key slice |
| XxteaSpec.KeyIndexDistinct | src/xxtea.rs:5 | within a round, two positions read the same key word exactly when they are congruent modulo 4, so every four consecutive words use all four key words |
| XxteaSpec.StepInverse | src/xxtea.rs:41-48 | a decrypt step at position p undoes the encrypt step at p with the same checksum and key, and conversely, because the `mx` arguments do not involve the word being changed |
| XxteaSpec.EncRound | src/xxtea.rs:16-25 | one encryption round, steps 0 up to n in turn (the `for` loop and the closing step on `v[n]`), keeps the buffer length |
| XxteaSpec.DecRound | src/xxtea.rs:39-49 | one decryption round, steps n down to 0 in turn (the inner `while` and the closing step on `v[0]`), keeps the buffer length |
| XxteaSpec.EncRoundAt | src/xxtea.rs:18-25 | one encryption round changes each word once: word p gets `mx` of the OLD word p+1 and the NEW word p-1 added; word 0 uses the old last word and the last word uses the NEW word 0 |
| XxteaSpec.DecRoundAt | src/xxtea.rs:40-49 | one decryption round changes each word once, from the last down: word p gets `mx` of the NEW word p+1 and the OLD word p-1 subtracted; the last word uses the old word 0 and word 0 uses the NEW last word |
| XxteaSpec.RoundInverse | src/xxtea.rs:38-51 | a decryption round inverts the encryption round with the same checksum, in both directions |
| XxteaSpec.OneWordRoundNotInverted | src/xxtea.rs:23-24 | with a single word, `mx` reads the word it changes: under the key [0, 0, 0x61C88648, 0] the first encryption round maps [0] to [1] and the decryption round with the same checksum maps [1] to [0xFFFFFFEC], so the round is not undone (contrast `RoundInverse`, for two words or more) |
| XxteaSpec.SumAt | src/xxtea.rs:12-15 | the checksum after r encryption rounds: DELTA added r times with wrap-around, starting from 0 |
| XxteaSpec.SumAtMul | src/xxtea.rs:37 | after r encryption rounds the checksum is `r * DELTA` wrapped, which is where `decrypt_words` starts |
| XxteaSpec.SumAtPrev | src/xxtea.rs:50 | subtracting DELTA steps the checksum back to the previous encryption round's |
| XxteaSpec.SumAtZero | src/xxtea.rs:38 | for round counts up to 32 the checksum is 0 only before the first round, so `while sum != 0` stops exactly when all rounds are undone |
| XxteaSpec.EncRounds | src/xxtea.rs:14-27 | r encryption rounds with checksums `SumAt(1)` .. `SumAt(r)` keep the buffer length |
| XxteaSpec.DecRounds | src/xxtea.rs:37-51 | r decryption rounds with checksums `SumAt(r)` down to `SumAt(1)` keep the buffer length |
| XxteaSpec.Encrypt | src/xxtea.rs:8-28 | encryption keeps the buffer length |
| XxteaSpec.Decrypt | src/xxtea.rs:30-52 | decryption keeps the buffer length |
| XxteaSpec.DecryptEncrypt | tests/tests.rs:30-40 | decrypting an encrypted buffer with the same key gives the plaintext back |
| XxteaSpec.EncryptDecrypt | src/xxtea.rs:30-52 | encrypting a decrypted buffer gives it back: encryption is a bijection on buffers of each length |
| XxteaWords.EncryptWords | src/xxtea.rs:8-28 | the in-place nested loops leave exactly `Encrypt(old buffer, key)` in the array |
| XxteaWords.DecryptWords | src/xxtea.rs:30-52 | the in-place loops leave exactly `Decrypt(old buffer, key)` in the array, and the `while sum != 0` loop runs exactly `6 + 52 / n` rounds |
| XxteaBytes.CheckSizesAndAlignment | src/xxtea.rs:58-71 | the guard passes exactly when the data length is a multiple of 4, the key is 16 bytes long and both are aligned; otherwise it reports the first violated check in the order data length, data alignment, key length (with the length found), key alignment |
| XxteaBytes.WordsOf | src/xxtea.rs:87-88 | a buffer of 4n bytes read as n words, four bytes per word in the platform's byte order |
| XxteaBytes.BytesOf | src/xxtea.rs:112-113 | n words stored as 4n bytes, each in the platform's byte order |
| XxteaBytes.WordOfBytesOfWord | src/xxtea.rs:87-88 | storing a word as four bytes and reading it back, in either byte order, gives the word |
| XxteaBytes.BytesOfWordOf | src/xxtea.rs:87-88 | reading four bytes as a word and storing it gives the bytes |
| XxteaBytes.BytesOfWordsOf | src/xxtea.rs:112-113 | the word view of a byte buffer, stored back, is the buffer |
| XxteaBytes.WordsOfBytesOf | src/xxtea.rs:112-113 | words stored as bytes and viewed as words are the words |
| XxteaBytes.EncryptBytes | src/xxtea.rs:83-96 | encrypting a byte buffer keeps its length |
| XxteaBytes.DecryptBytes | src/xxtea.rs:108-121 | decrypting a byte buffer keeps its length |
| XxteaBytes.BytesRoundTrip | src/xxtea.rs:83-121 | byte-level decryption undoes byte-level encryption under the same key, and conversely |
| XxteaBytes.Encrypt | src/xxtea.rs:83-96 | returns the guard's outcome; a buffer failing the guard is unchanged; a passing one holds its encrypted word view |
| XxteaBytes.Decrypt | src/xxtea.rs:108-121 | returns the guard's outcome; a buffer failing the guard is unchanged; a passing one holds its decrypted word view |
| XxteaBytes.RoundTrip | tests/tests.rs:23-41 | encrypting a copy of a plaintext in place and then decrypting a copy of the ciphertext in place gives the plaintext |
| KeySlice.EncryptAsWritten | src/xxtea.rs:92-95 | `encrypt_words` against the slice `encrypt` builds, of any length: the encrypted buffer, or None where some `mx` call indexes past the slice |
| KeySlice.DecryptAsWritten | src/xxtea.rs:117-120 | `decrypt_words` against the slice `decrypt` builds: the decrypted buffer, or None where some `mx` call indexes past the slice |
| KeySlice.EncStepsCheckedSome | src/xxtea.rs:18-22 | encryption steps against a key slice abort exactly when some `mx` call indexes past the slice; with four words or more they compute what the 4-word key computes |
| KeySlice.DecStepsCheckedSome | src/xxtea.rs:41-46 | the same for decryption steps |
| KeySlice.EncRoundsCheckedSome | src/xxtea.rs:14-27 | encryption rounds against a slice abort exactly when some `mx` call of some round indexes past it; otherwise with four words or more they give `EncRounds` |
| KeySlice.DecRoundsCheckedSome | src/xxtea.rs:38-51 | the same for decryption rounds and `DecRounds` |
| KeySlice.AbortAt | src/xxtea.rs:5 | a single out-of-range key index in any round makes both transforms abort |
| KeySlice.ShortSliceAborts | src/xxtea.rs:92-93 | with 8 or 12 bytes of data the slice has 2 or 3 words, and both `encrypt` and `decrypt` abort |
| KeySlice.AsWrittenLongSlice | src/xxtea.rs:117-118 | with 16 bytes of data or more only the first four words of the slice are read, and both transforms compute what the 4-word key computes |

## Left out

- Reinterpreting the byte buffer as words with `from_raw_parts` is modelled as reading the
  words into a fresh word array and storing them back. The byte order is a parameter,
  because it is the platform's. The aliasing of the two views is not modelled.
- Whether a buffer starts on a 4-byte boundary (`align_offset`) depends on its address. It
  is a boolean input of the guard.
- Panic messages are not modelled. The guard's panics are the `GuardError` values; only
  `KeyNot128Bits` carries the length it reports.
- XxteaWords.EncryptWords: requires at least two words. With none, `length - 1` underflows.
  With one word (n = 0) the `for` loop does not run and the closing step adds
  `mx(sum, v[0], v[0], 0, e, k)`, computed from the word it changes, so decryption does not
  undo encryption; `XxteaSpec.OneWordRoundNotInverted` exhibits this for one round. The
  model's step definitions cover one word, but the round trips are proved only from two
  words up, and the word methods are specified only there.
- XxteaWords.DecryptWords: requires at least two words, for the same reasons.
- XxteaBytes.Encrypt: requires 8 bytes or more whenever the guard passes. With 0 bytes the
  code underflows. A 4-byte buffer passes the guard (`src/xxtea.rs:59`): as written, the
  code then indexes past its 1-word key slice; with the corrected 4-word key it would
  encrypt the buffer as the single word described above, which decryption does not invert.
  The requirement `data.Length >= 8` excludes both, so that every buffer the model accepts
  round-trips.
- XxteaBytes.Decrypt: requires 8 bytes or more whenever the guard passes, for the same
  reasons; on a 4-byte buffer the corrected code would not undo `encrypt`.
- XxteaBytes.Encrypt: uses a 4-word key slice, which is the corrected behaviour. The code
  as written passes a slice of `data.len() / 4` words; `KeySlice` models that (see Findings).
- XxteaBytes.Decrypt: uses the corrected 4-word key slice as well.
- KeySlice.AsWrittenLongSlice: for data over 16 bytes the slice reaches past the 16 key
  bytes into memory the model cannot see. The slice is a parameter of any content, and
  only its first four words matter.
- XxteaBytes.RoundTrip: the test draws random lengths and random bytes (`rand`), and
  checks the result through UTF-8 decoding. The model takes any plaintext of at least 8
  bytes that is a multiple of 4 bytes long, and compares the bytes directly.
  `to_hex_byte_string` is test scaffolding and is not modelled.
- No claim is made about the cipher's strength, avalanche or other statistical behaviour,
  and no concrete test vector is computed.
- The `as u32` cast of a position (`PosWord`) keeps the low 32 bits. Nothing else in the
  source depends on the width of `usize`.

## Findings

| source | as written | input that shows it | evidently intended | confidence | as-written member | corrected member |
|---|---|---|---|---|---|---|
| src/xxtea.rs:92-93 (and 117-118) | the key is reinterpreted as a slice of `data.len() / 4` words, the number of DATA words | data of 8 bytes with any 16-byte key: the slice has 2 words. The first `mx` call (p = 0, sum = DELTA, e = 2) reads `key[2]` and panics. With 12 bytes, p = 1 reads `key[3]` of a 3-word slice. With more than 16 bytes the slice reaches past the key, though only its first four words are read | a slice of `key.len() / 4` = 4 words, so that every buffer of two words or more round-trips | high; not executed | KeySlice.ShortSliceAborts | XxteaBytes.BytesRoundTrip |
