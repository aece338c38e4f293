# Backup codes of mfa-lib, in Dafny

This project models the backup-code logic of the `mfa-lib` TypeScript
library (`src/mfa-lib.ts`) and proves its properties:

- **Generation** (`generateBackupCodes`): `count` codes (10 when omitted),
  each the lowercase hex text of 4 random bytes, and beside them, at the same
  positions, their SHA-256 digests in lowercase hex.
- **Validation** (`validateBackupCode`): the submitted code is hashed; it is
  accepted exactly when its digest is among the stored digests, and then the
  stored list comes back with every copy of that digest filtered out.
  Otherwise the result carries no list at all.
- **Hashing** (`hashCode`): SHA-256 of the code, rendered as lowercase hex.

Modules:

- `Hex` (`hex.dfy`): Node's `'hex'` encoding of bytes (two lowercase digits
  per byte, high nibble first), its inverse `Decode`, and the round trips.
- `BackupCodeTypes` (`types.dfy`): the result records `BackupCode` and
  `UpdatedBackupCode`; the optional `backupCodes?` field is an `Option`, so an
  absent list stays distinct from an empty one.
- `MfaLib` (`mfa_lib.dfy`): `HashCode`, `GenerateBackupCodes`,
  `ValidateBackupCode`, the filter `Without`, and the lemmas.

The two effects of the library are parameters. The secure random source is
`draws: seq<Word>`, one 4-byte word per code, in the order the codes are
drawn. SHA-256 is `sha256: string -> Digest` (32 bytes, encoding the string
as the hash function does). Nothing is assumed about it beyond being a
function, so the same input always gives the same digest. Where a property
needs two digests to differ, the lemma states that as a hypothesis about
the specific inputs involved.

Behaviour of the code that is easy to misread, as the model has it:
- A negative `count` yields no codes, because `Array.from({length: count})`
  clamps the length to 0 (`ArrayLength`).
- A `count` above 2^32 - 1 draws nothing and throws a RangeError, because
  `Array.from` builds its result with `new Array(length)`, which refuses such
  lengths. The model returns `RangeError` (`GenerateBackupCodes`).
- Validation removes every stored entry equal to the digest, not exactly one.
  With pairwise distinct digests this is one entry (`ValidateRemaining`,
  `WithoutDistinct`).
- The test accepts upper- or lower-case hex codes. The code only ever
  produces lowercase, and that is what the model proves.

## Model

| member | source | states |
|---|---|---|
| `MfaLib.HashCode` | src/mfa-lib.ts:56-58 | the stored form of a code is 64 lowercase hex characters (a 32-byte SHA-256 digest rendered as hex) |
| `MfaLib.HashCodeEqual` | src/mfa-lib.ts:56-58 | two codes have the same stored form if and only if SHA-256 gives them the same digest: the hex rendering adds no collisions |
| `MfaLib.ArrayLength` | src/mfa-lib.ts:17 | the length asked of `Array.from` is the count clamped up to zero: never below the count, and either zero or the count itself |
| `MfaLib.DrawCount` | src/mfa-lib.ts:17-18 | one 4-byte draw per array slot when the length is allowed; no draw at all when the length is refused, since the RangeError comes before the first call to `randomBytes`; never more than 2^32 - 1 draws |
| `MfaLib.CodesFromDraws` | src/mfa-lib.ts:17-24 | one code per draw; every code is 8 lowercase hex characters and decodes back to the 4 bytes drawn for it; `hashedCodes[i]` is the digest of `backupCodes[i]` at every index |
| `MfaLib.GenerateBackupCodes` | src/mfa-lib.ts:16-25 | a RangeError exactly when `count` exceeds 2^32 - 1; otherwise both lists have the clamped length of `count`, every code is 8 lowercase hex characters decoding back to its own draw, and `hashedCodes[i]` is the digest of `backupCodes[i]` at every index |
| `MfaLib.GenerateDefaultBackupCodes` | src/mfa-lib.ts:16 | with `count` omitted, generation succeeds and both lists have exactly 10 entries |
| `MfaLib.GenerateCount` | src/mfa-lib.ts:16-25 | a count from 0 to 2^32 - 1 is met exactly by both lists, which are the codes of the draws; a negative count gives two empty lists; a larger count gives a RangeError |
| `MfaLib.GeneratedCodesDistinct` | src/mfa-lib.ts:17-20 | two generated codes are equal if and only if their random draws are equal |
| `MfaLib.GeneratedHashesDistinct` | src/mfa-lib.ts:22 | the digests are pairwise distinct when SHA-256 separates the generated codes |
| `MfaLib.Without` | src/mfa-lib.ts:43 | the stored list with the digest filtered out: no copy of it remains and the list does not grow (contents and order pinned down by `WithoutCounts` and `WithoutAppend`) |
| `MfaLib.WithoutCounts` | src/mfa-lib.ts:43 | the filter leaves no copy of the removed digest and keeps every other value with its number of occurrences |
| `MfaLib.WithoutAppend` | src/mfa-lib.ts:43 | the filter distributes over concatenation, so kept elements stay in their original relative order |
| `MfaLib.WithoutAbsent` | src/mfa-lib.ts:43 | filtering out a value that does not occur returns the list unchanged |
| `MfaLib.WithoutLength` | src/mfa-lib.ts:43 | the filtered list is shorter by exactly the number of occurrences of the removed value |
| `MfaLib.WithoutSingle` | src/mfa-lib.ts:43 | a value occurring once is removed from its one position and nothing else changes |
| `MfaLib.WithoutDistinct` | src/mfa-lib.ts:43 | in a list without duplicates, filtering out the element at `i` yields the list minus position `i`, one entry shorter |
| `MfaLib.ValidateBackupCode` | src/mfa-lib.ts:39-48 | `status` holds if and only if the code's digest is stored; the list is present if and only if `status` holds; on success the list no longer holds the digest and keeps every other digest with its multiplicity; an empty store always gives `{status: false}` with no list |
| `MfaLib.ValidateRemaining` | src/mfa-lib.ts:42-44 | on success the returned list is the stored list with the digest filtered out, its length is the old length minus the digest's occurrences, and one less when the store has no duplicates |
| `MfaLib.SingleUse` | src/mfa-lib.ts:40-47 | once accepted, the same code is refused (with no list) against the list that acceptance returned |
| `MfaLib.OtherCodesSurvive` | src/mfa-lib.ts:40-44 | after one code is accepted, a code with a different SHA-256 digest is accepted if and only if it was accepted before |
| `MfaLib.GenerateThenValidate` | src/mfa-lib.ts:16-48 | for the codes of any draws (what every successful generation returns, by `GenerateCount`), every generated code is accepted against its generation's digests and its digest is absent afterwards; with distinct digests exactly its own entry is removed |
| `MfaLib.RejectsUnissued` | src/mfa-lib.ts:40-47 | any text whose SHA-256 digest differs from those of all issued codes is refused with no list, whether or not it is shaped like a code |
| `MfaLib.ValidateHead` | src/mfa-lib.ts:40-44 | a code whose digest heads a duplicate-free store is accepted and the rest of the store is returned |
| `MfaLib.ConsumeInOrder` | src/mfa-lib.ts:39-48 | with a duplicate-free store, codes whose digests head it can be used one after another, each accepted, leaving the digests not yet used |
| `MfaLib.GenerateThenConsume` | src/mfa-lib.ts:16-48 | with distinct digests, the first `k` codes of a generation can be used in order and the digests of the remaining codes are what is left |
| `MfaLib.ScenarioGenerate` | src/mfa-lib.ts:16-25 | the draws a1b2c3d4, e5f6a7b8, 11223344 give exactly those three codes and their digests in the same order |
| `MfaLib.ScenarioValidate` | src/mfa-lib.ts:39-48 | in that example, submitting "e5f6a7b8" returns the other two digests in order, and "ffffffff" is refused with no list |
| `MfaLib.ScenarioCodes` | src/mfa-lib.ts:18 | the hex texts of the three example words are "a1b2c3d4", "e5f6a7b8" and "11223344" |
| `MfaLib.EncodeWord` | src/mfa-lib.ts:18 | the hex text of a 4-byte word is its eight nibbles' digits, high nibble of each byte first |
| `Hex.DigitChar` | src/mfa-lib.ts:18 | a nibble's digit is a lowercase hex digit, `0`-`9` below ten and `a`-`f` from ten |
| `Hex.DigitValue` | src/mfa-lib.ts:18 | reading a lowercase hex digit gives the nibble whose digit it is |
| `Hex.HighNibble` | src/mfa-lib.ts:18 | the high nibble of a byte is below 16 |
| `Hex.LowNibble` | src/mfa-lib.ts:18 | the low nibble of a byte is below 16, and sixteen times the high nibble plus the low nibble is the byte |
| `Hex.ByteToHex` | src/mfa-lib.ts:18 | a byte becomes two lowercase hex digits |
| `Hex.Encode` | src/mfa-lib.ts:18 | the hex text of `n` bytes has `2n` characters, all lowercase hex digits |
| `Hex.Decode` | src/mfa-lib.ts:18 | a well-formed hex text of `2n` characters stands for `n` bytes |
| `Hex.EncodeAt` | src/mfa-lib.ts:18 | byte `i` is rendered at positions `2i` (high nibble) and `2i+1` (low nibble) |
| `Hex.DecodeEncode` | src/mfa-lib.ts:18 | decoding the hex text of any bytes gives back those bytes |
| `Hex.EncodeDecode` | src/mfa-lib.ts:18 | encoding the bytes of any well-formed hex text gives back that text |
| `Hex.EncodeInjective` | src/mfa-lib.ts:57 | two byte strings have the same hex text if and only if they are equal |

## Left out

- The `authenticator` re-export from `otplib` (src/mfa-lib.ts:2, 5): a pass-through to a third-party TOTP library with no logic of its own.
- The internals of SHA-256 behind `createHash` (src/mfa-lib.ts:57): a foreign call, modelled as the function parameter `sha256`; no collision resistance is assumed, only stated per lemma where needed.
- `randomBytes` (src/mfa-lib.ts:18): the entropy source is I/O; its output is the parameter `draws`.
- The probability that 20 generated codes are distinct (test/mfa-lib.test.ts:18-21): a likelihood, not a guarantee; the model instead proves that codes are distinct exactly when their draws are (`GeneratedCodesDistinct`).
- Timing of the membership test (`includes`) and the absence of constant-time comparison: only the result is modelled.
- MfaLib.GenerateBackupCodes: takes an integer `count`, so counts that are not integers are not modelled: a fraction is truncated and `NaN` gives no codes, while `Infinity` throws a RangeError before drawing anything.
- MfaLib.HashCode: a Dafny `string` holds Unicode scalar values, so it cannot hold a JavaScript string with lone surrogates, which Node replaces by U+FFFD before hashing.
- The UTF-8 encoding of the code string before hashing: it is part of what `sha256` does with its string argument.
- The `index.ts` entry point and the QR-code helper are not part of this model.
