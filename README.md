# Hashing and dot-path lookup, modelled in Dafny

This project models two parts of the Crypto backend.

The first is the hashing module `Crypto::SHA256::Hash`:
- the base-16 codec `bytesToHex` / `hexToBytes`;
- the digest compositions `sha256`, `sha256d`, `ripemd160` (each for bytes and for a string) and `hash160`;
- the Merkle-root reduction `merkleRoot`.

The second is the dot-path navigation over nlohmann JSON values, in two variants:
- `Crypto::Utils::JSONHelper`: `splitPath`, `navigateToPath`, `getNestedValue`, `hasKey`, `hasNestedKey`, the typed getters and `validateRequiredFields`;
- `Crypto::Utils::Config`: `getValueByKey` and its typed getters. These are modelled as functions of the configuration value, not of the singleton.

Files and modules:

| file | module | contents |
|---|---|---|
| `wrappers.dfy` | `Wrappers` | `Option`, `Result`, `Outcome` |
| `hex.dfy` | `Hex` | bytes, `bytesToHex`, `hexToBytes` (with a model of `std::stoul` on a two-character chunk), round trips, the corrected strict decoder |
| `hash.dfy` | `Hash` | the digest primitives as parameters, the four compositions, the Merkle levels and root |
| `tokenizer.dfy` | `Tokenizer` | `std::getline(stream, token, '.')` over a path: the tokens it reads and their laws |
| `json.dfy` | `JsonValue` | the JSON value, `contains`, `get<int>()`, navigation along a key path |
| `json_helper.dfy` | `JsonHelper` | the JSONHelper accessors |
| `config.dfy` | `Config` | the Config accessors |

Modelling decisions:
- A byte is an `int` in 0..255. A C++ `std::string` is a `string` in which each char stands for one byte; chars of 256 and above have no C++ counterpart. Converting it to bytes (`std::vector<uint8_t>(s.begin(), s.end())`) takes each char modulo 256, so it is the identity on chars below 256.
- The OpenSSL primitives `sha256Raw` and `ripemd160Raw` are not modelled. Every hash function takes a `Primitives` value holding two arbitrary functions. Their types promise only the digest lengths, 32 and 20 bytes. So every property proved holds for any SHA-256 and RIPEMD-160 implementation.
- The hash functions are stated through what their hex output decodes to. For example, `Sha256d(p, b)` is the 64-character lowercase hex whose strict decoding is `SHA(SHA(b))`. Lowercase hex decodes injectively (`Hex.LowerHexInjective`), so this pins the output down.
- `std::stoul(chunk, nullptr, 16)` on a two-character chunk, followed by the cast to `uint8_t`, is modelled exactly (`Hex.StoulByte`). It skips leading white space and accepts one sign. It reads the hex digits that follow and ignores the rest. It throws `std::invalid_argument` only when it reads no digit. `Hex.HexError` separates the two `std::invalid_argument` causes (odd length, unreadable chunk). The source throws the same exception type for both.
- `hexToBytes` does not fail only on odd length. It also throws when `stoul` cannot read a chunk, and it accepts chunks such as `"0z"`. The model follows the code (see Findings).
- `std::getline` with delimiter `'.'` is modelled once (`Tokenizer.Tokens`, `Tokenizer.Getline`). Both readers use it. A trailing `'.'` yields no final empty token, and the empty text yields no token. `splitPath` then drops the empty tokens. `Config::getValueByKey` keeps them, so a leading or doubled dot looks up the key `""`.
- nlohmann's `contains(key)` is false for every value that is not an object. `operator[]` is reached only after `contains` succeeds, so lookup never inserts. Values are immutable here, so the configuration cannot change.
- `get<int>()` converts the stored 64-bit integer to a 32-bit `int`, keeping it modulo 2^32 (`JsonValue.ToInt32`).

## Model

| member | source | states |
|---|---|---|
| `Hex.HexDigit` | backend/src/crypto/hash.cpp:162-166 | the character printed for a nibble is a lowercase hex digit that reads back as that nibble |
| `Hex.ToHex` | backend/src/crypto/hash.cpp:160-169 | the hex text has exactly 2·n characters, all lowercase hex (the empty input gives "") |
| `Hex.ToHexDigits` | backend/src/crypto/hash.cpp:165-167 | byte k is printed at offsets 2k and 2k+1, high digit first, zero-padded to two digits |
| `Hex.ToHexAt` | backend/src/crypto/hash.cpp:165-167 | the two characters printed for byte k read back, as nibbles, to that byte |
| `Hex.ToHexConcat` | backend/src/crypto/hash.cpp:165-167 | the hex of a concatenation is the concatenation of the hex texts, so bytes are printed in order |
| `Hex.BytesToHex` | backend/src/crypto/hash.cpp:160-169 | the stream loop yields `ToHex(bytes)`: length 2·n, lowercase |
| `Hex.StoulByte` | backend/src/crypto/hash.cpp:187-188 | stoul base 16 plus the uint8_t cast on one chunk; it succeeds exactly when the first character is a hex digit, or is white space or a sign followed by a hex digit |
| `Hex.DecodeFrom` | backend/src/crypto/hash.cpp:186-190 | decoding from chunk k (offset 2k) gives one byte per remaining chunk on success; on failure it names a chunk at or after offset 2k, at an even offset, that stoul cannot read |
| `Hex.FromHex` | backend/src/crypto/hash.cpp:177-193 | the error is OddLength exactly when the length is odd, so the check comes before any decoding; on success the sequence has half as many bytes as the text has characters |
| `Hex.HexToBytes` | backend/src/crypto/hash.cpp:177-193 | the length check and the push_back loop compute `FromHex(hex)`; odd length gives OddLength |
| `Hex.DecodeHexDigits` | backend/src/crypto/hash.cpp:186-190 | when every character from chunk k on is a hex digit, decoding from chunk k succeeds and byte m of its result is 16·(digit 2k+2m) + (digit 2k+2m+1) |
| `Hex.DecodeHexDigitAt` | backend/src/crypto/hash.cpp:186-190 | on hex digits, byte m decoded from chunk k on is the value of chunk k + m |
| `Hex.FromHexDigits` | backend/src/crypto/hash.cpp:183-190 | an even-length string of hex digits decodes to half as many bytes as it has characters, each read from its two-character chunk, in either case |
| `Hex.HexRoundTrip` | backend/src/crypto/hash.cpp:160-190 | `hexToBytes(bytesToHex(b)) == b` for every byte sequence |
| `Hex.HexRoundTripLower` | backend/src/crypto/hash.cpp:160-190 | for an even-length string of hex digits, `bytesToHex(hexToBytes(h))` is h in lowercase |
| `Hex.DecodeIgnoresCase` | backend/src/crypto/hash.cpp:186-190 | lowering the text does not change decoding from any chunk |
| `Hex.FromHexIgnoresCase` | backend/src/crypto/hash.cpp:177-193 | `hexToBytes` is case-insensitive on every input, malformed ones included |
| `Hex.StoulIgnoresCase` | backend/src/crypto/hash.cpp:188 | reading one chunk does not depend on letter case |
| `Hex.LowerHexInjective` | backend/src/crypto/hash.cpp:160-169 | two lowercase hex texts that decode to the same bytes are equal, so the hex output is canonical |
| `Hex.LaxChunksAccepted` | backend/src/crypto/hash.cpp:188 | as written, "0z", " f", "-1" and "+a0x" decode without error, to [0], [15], [255] and [10, 0] |
| `Hex.FromHexStrict` | backend/src/crypto/hash.cpp:177-193 | the corrected decoder succeeds exactly on even-length strings of hex digits, agreeing with `hexToBytes` there; an odd length gives OddLength, and otherwise it names the chunk holding the first character that is not a hex digit |
| `Hex.StrictHexRoundTrip` | backend/src/crypto/hash.cpp:160-193 | the corrected decoder inverts `bytesToHex` |
| `Hash.TextBytes` | backend/src/crypto/hash.cpp:26 | the string's bytes have the string's length and equal its chars wherever these are below 256 |
| `Hash.Sha256` | backend/src/crypto/hash.cpp:37-46 | 64 lowercase hex characters that decode to the SHA-256 digest of the bytes |
| `Hash.Sha256Str` | backend/src/crypto/hash.cpp:24-34 | 64 lowercase hex characters that decode to the SHA-256 digest of the string's bytes |
| `Hash.Sha256d` | backend/src/crypto/hash.cpp:61-72 | 64 lowercase hex characters that decode to SHA(SHA(b)); it equals `sha256` of the raw first digest, not of its hex |
| `Hash.Sha256dStr` | backend/src/crypto/hash.cpp:49-58 | the string overload decodes to SHA(SHA(bytes(s))), the byte overload's result on the string's bytes |
| `Hash.Ripemd160` | backend/src/crypto/hash.cpp:88-97 | 40 lowercase hex characters that decode to the RIPEMD-160 digest of the bytes |
| `Hash.Ripemd160Str` | backend/src/crypto/hash.cpp:75-85 | 40 lowercase hex characters that decode to the RIPEMD-160 digest of the string's bytes |
| `Hash.Hash160Str` | backend/src/crypto/hash.cpp:100-111 | 40 lowercase hex characters that decode to RIPEMD(SHA(bytes(s))); it equals `ripemd160` of the raw SHA-256 digest |
| `Hash.NextLevel` | backend/src/crypto/hash.cpp:128-146 | a level of n hashes yields ⌈n/2⌉ entries; entry k is sha256d of hash 2k followed by hash 2k+1, or by itself when it is the odd last one |
| `Hash.BuildNextLevel` | backend/src/crypto/hash.cpp:128-146 | the stepping-by-2 push_back loop builds exactly `NextLevel` |
| `Hash.MerkleRootOf` | backend/src/crypto/hash.cpp:115-152 | no hashes give "", one hash is returned unchanged (valid hex or not), two or more give a 64-character lowercase hex root; the recursion terminates since ⌈n/2⌉ < n |
| `Hash.MerkleRoot` | backend/src/crypto/hash.cpp:115-152 | the recursive method with its level-building loop computes `MerkleRootOf` |
| `Hash.MerkleRootOfTwo` | backend/src/crypto/hash.cpp:130-152 | the root of [a, b] is sha256d of the hex text a + b |
| `Hash.MerkleRootOfThree` | backend/src/crypto/hash.cpp:130-152 | the root of [a, b, c] is the root of [sha256d(a + b), sha256d(c + c)]: the last hash is duplicated |
| `Hash.MerkleRootIsDoubleHash` | backend/src/crypto/hash.cpp:143-152 | from two hashes on, the root is sha256d of some text |
| `Tokenizer.TokensDotFree` | backend/src/utils/JSONHelper.cpp:109-111 | no token read by getline with delimiter '.' contains a '.' |
| `Tokenizer.FieldsDotFree` | backend/src/utils/JSONHelper.cpp:111 | no dot-separated field contains a '.' |
| `Tokenizer.Getline` | backend/src/utils/config.cpp:54 | one getline call succeeds exactly when text is left, reads a dot-free token and advances past it and its delimiter |
| `Tokenizer.TokenAt` | backend/src/utils/config.cpp:54 | the token read at a position is the text up to the next dot, or to the end, after which reading resumes past the dot |
| `Tokenizer.FieldsOfSegment` | backend/src/utils/config.cpp:54 | a dot-free text is a single field |
| `Tokenizer.TokensOfSegment` | backend/src/utils/config.cpp:54 | a dot-free text is read as one token, or as none when empty |
| `Tokenizer.FieldsJoin` | backend/src/utils/JSONHelper.cpp:111 | the fields of a + "." + b are the fields of a followed by the fields of b |
| `Tokenizer.LastFieldEmpty` | backend/src/utils/JSONHelper.cpp:111 | the last field is empty exactly when the text is empty or ends with a dot |
| `Tokenizer.TokensJoin` | backend/src/utils/JSONHelper.cpp:111 | reading a + "." + b gives every field of a, empty ones included, then the tokens of b |
| `Tokenizer.FieldsTokens` | backend/src/utils/JSONHelper.cpp:111 | getline reads every dot-separated field except a final empty one |
| `Tokenizer.TokensConcat` | backend/src/utils/JSONHelper.cpp:111 | the tokens concatenate to the text with its dots removed |
| `JsonValue.ToInt32` | backend/src/utils/JSONHelper.cpp:88 | `get<int>()` gives a 32-bit value congruent to the stored integer modulo 2^32, and the value itself when it fits |
| `JsonValue.NavigateIsLookup` | backend/src/utils/JSONHelper.cpp:119-126 | navigation returns the value stored at the path, or null when a key is missing; the two cases cannot be told apart |
| `JsonValue.NavigateAppend` | backend/src/utils/JSONHelper.cpp:121-124 | navigating a + b is navigating a, then b from the value reached |
| `JsonValue.StopsAtMissingKey` | backend/src/utils/JSONHelper.cpp:122 | once a key is absent from the current value (a non-object included), the result is null whatever follows |
| `JsonHelper.HasKey` | backend/src/utils/JSONHelper.cpp:137-139 | true exactly when the value is an object holding the key |
| `JsonHelper.GetString` | backend/src/utils/JSONHelper.cpp:74-83 | the stored string when the key exists and holds a string, otherwise the default |
| `JsonHelper.GetInt` | backend/src/utils/JSONHelper.cpp:85-94 | the stored integer converted to int when the key exists and holds an integer, otherwise the default |
| `JsonHelper.GetBool` | backend/src/utils/JSONHelper.cpp:96-105 | the stored boolean when the key exists and holds one, otherwise the default |
| `JsonHelper.GettersReadStoredValues` | backend/src/utils/JSONHelper.cpp:74-105 | after storing a value under a key, the getter of its type reads it back and a getter of another type returns its default |
| `JsonHelper.NonEmpty` | backend/src/utils/JSONHelper.cpp:112-114 | only non-empty tokens are kept, and only tokens that were read |
| `JsonHelper.SplitPathOf` | backend/src/utils/JSONHelper.cpp:107-117 | no part is empty and no part contains '.' |
| `JsonHelper.SplitPath` | backend/src/utils/JSONHelper.cpp:107-117 | the getline loop returns `SplitPathOf(path)`: non-empty, dot-free parts |
| `JsonHelper.SplitPathConcat` | backend/src/utils/JSONHelper.cpp:107-117 | the parts concatenate, in order, to the path with every '.' removed |
| `JsonHelper.SplitPathJoin` | backend/src/utils/JSONHelper.cpp:111-115 | the parts of a + "." + b are those of a followed by those of b |
| `JsonHelper.SplitPathOfSegment` | backend/src/utils/JSONHelper.cpp:111-115 | a dot-free path is one part, or none when empty |
| `JsonHelper.NavigateToPath` | backend/src/utils/JSONHelper.cpp:119-126 | the cursor loop computes `Navigate(j, parts)`, so the empty path returns j itself |
| `JsonHelper.GetNestedValue` | backend/src/utils/JSONHelper.cpp:128-135 | the value stored at the path's parts, or null when one is missing; the empty path returns the whole value |
| `JsonHelper.HasNestedKey` | backend/src/utils/JSONHelper.cpp:141-143 | true exactly when the path exists and its value is not null, so false for a missing path and for an explicit null |
| `JsonHelper.SplitPathIgnoresLeadingDot` | backend/src/utils/JSONHelper.cpp:111-115 | a leading dot does not change the parts |
| `JsonHelper.SplitPathIgnoresTrailingDot` | backend/src/utils/JSONHelper.cpp:111-115 | a trailing dot does not change the parts |
| `JsonHelper.SplitPathIgnoresDoubledDot` | backend/src/utils/JSONHelper.cpp:111-115 | a doubled dot splits like a single one |
| `JsonHelper.GetNestedValueIgnoresExtraDots` | backend/src/utils/JSONHelper.cpp:128-131 | a leading, a trailing or a doubled dot resolves exactly like none or a single one |
| `JsonHelper.GetNestedValueOfKey` | backend/src/utils/JSONHelper.cpp:128-131 | a non-empty dot-free path reads the direct member, or null |
| `JsonHelper.ValidateRequiredFields` | backend/src/utils/JSONHelper.cpp:145-151 | passes exactly when every field is a top-level key; a failure names the first missing field in list order, and its what() text is "JSON Error: Missing required field: " followed by that field |
| `Config.ValueByKey` | backend/src/utils/config.cpp:49-59 | the empty key returns the entire configuration |
| `Config.GetValueByKey` | backend/src/utils/config.cpp:49-59 | the getline and cursor loop computes `ValueByKey`: navigation along every getline token, empty ones included |
| `Config.GetString` | backend/src/utils/config.cpp:61-64 | the resolved value when it is a string, otherwise "" |
| `Config.GetInt` | backend/src/utils/config.cpp:66-69 | the resolved integer converted to int, otherwise 0 |
| `Config.GetBool` | backend/src/utils/config.cpp:71-74 | the resolved boolean, otherwise false |
| `Config.ValueByKeyOfSegment` | backend/src/utils/config.cpp:54-57 | a single-segment key returns exactly the direct member, or null when it is absent or the value is not an object |
| `Config.ValueByKeyStep` | backend/src/utils/config.cpp:54-56 | a key is read one segment at a time, null as soon as a segment is missing; empty segments are not skipped |
| `Config.LeadingDotLooksUpEmptyKey` | backend/src/utils/config.cpp:54-55 | a leading dot looks up the key "" first |
| `Config.DoubledDotDiffers` | backend/src/utils/config.cpp:54-55 | for non-empty dot-free keys a and b, in {a: {b: v}} the key a.b gives v but a..b gives null, because a..b looks up "" inside a; a..b gives v only in {a: {"": {b: v}}} |
| `Config.HelperSkipsDoubledDot` | backend/src/utils/JSONHelper.cpp:107-135 | JSONHelper, unlike Config, resolves a..b in {a: {b: v}} to v |

## Left out

- SHA-256 and RIPEMD-160 themselves (hash.cpp:201-244): OpenSSL calls. They are parameters whose only promise is the digest length.
- The primitives' init/update/final failure branches and the `runtime_error` they throw: library faults, not logic. The model's primitives always succeed.
- All logging (every `Logger` call, the constructors and destructors that log): console output that never affects a result.
- The `Config` and `Logger` singletons, their mutexes, and `Config::loadConfig`: file I/O and process-wide state.
- `JSONHelper::loadFromFile`, `saveToFile`, `parseFromString`, `toString`, `toCompactString` and `isValidJSON`: file I/O and nlohmann's text handling.
- `generateUUID` (randomness) and `getCurrentTimestamp` (clock). `createErrorResponse` and `createSuccessResponse` are also out, since they embed the timestamp.
- `createTransactionJSON` and `createBlockJSON`: they build values with floating-point amounts and difficulty.
- Floating-point JSON numbers, binary values and the distinction between nlohmann's signed and unsigned integers: `JsonValue.Json` has one integer case.
- The width of stored integers: `JInt` holds an unbounded int, while nlohmann stores a 64-bit signed or unsigned integer. `ToInt32` wraps modulo 2^32 either way, so the getters' results are the same for every value nlohmann can hold.
- The declarations in `backend/include/utils/config.h`: they have no implementation, and `config.cpp` implements `Config.h`.
- The HTTP CORS filter and the `main` programs.
- Order sensitivity of `merkleRoot` and determinism are not stated as lemmas. The first would need collision resistance, which the abstract primitives do not promise. The second holds for every Dafny function.
- `Hash.Sha256dStr`: states the decoded digest of the result rather than the literal equality with the byte overload. Both overloads' results are lowercase hex with the same decoding, so they are equal by `Hex.LowerHexInjective`.
- `isspace` and the digit tests are taken in the "C" locale.

## Findings

| source | as written | input that shows it | evidently intended | confidence | as-written member | corrected member |
|---|---|---|---|---|---|---|
| backend/src/crypto/hash.cpp:188 | each chunk is read with `std::stoul(chunk, nullptr, 16)`, which accepts leading white space, a sign and a trailing non-digit | `hexToBytes("0z")` returns [0]; `" f"` gives [15]; `"-1"` gives [255] | chunks that are not two hex digits are rejected as malformed input | medium, not executed | `Hex.LaxChunksAccepted` | `Hex.FromHexStrict` |

The hash contracts in `hash.dfy` use the strict decoder `Hex.FromHexStrict`. It agrees with `hexToBytes` on every well-formed input.
