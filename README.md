# SAP CODVN H and HMAC-SHA1 formats of John the Ripper, modelled in Dafny

This project models two password-hash formats of John the Ripper. Each
format validates and parses a textual hash record, computes a candidate
plaintext's digest and compares that digest with the stored one.

* **SAP CODVN H (PWDSALTEDHASH)**, module `SapH`. Records look like
  `{x-is<tag>, <count>}<base64>`. The tag is `sha`, `SHA256`, `SHA384` or
  `SHA512`. The payload decodes to the native digest followed by 1 to 16
  salt bytes.
  - Round 0 hashes plaintext ‖ salt. Every later round hashes
    plaintext ‖ previous digest. A count of `n` gives max(n, 1) rounds.
  - The last digest is cut to 16 bytes.
  - Modelled: `valid`, `get_salt`, `binary`, the per-candidate state
    (`set_salt`, `set_key`, `get_key`), `crypt_all` and its four
    per-digest loops, and the comparators.
* **HMAC-SHA1**, module `HmacSha1`, scalar build. Records look like
  `salt#hexdigest`. The last `#` separates the salt from 40 hex digits.
  - The digest is HMAC-SHA1(key = plaintext, text = salt), as in section 2
    of RFC 2104.
  - This module models the scalar code only. Modelled: `valid`, `split`,
    `binary`, `salt`, `set_salt`, `set_key` (the ipad/opad key schedule,
    pre-hashing keys longer than 64 bytes), `get_key`, `crypt_all`, the
    comparators and the `binary_hash_N`/`get_hash_N` masks.

Supporting modules:

* `Bytes`: bytes, C strings and the C library routines the formats call
  (`strchr`, `strrchr`, `strlen` over a fixed buffer, `memcpy`, `memset`,
  `tolower`/`strlwr`, and reading a 32-bit little-endian word).
* `Decimal`: `isdecu` and `sscanf("%u")`.
* `Base64`: a MIME decoder and encoder.
* `Sha`: the four digest sizes. The hash functions themselves are a
  parameter (`Sha.Suite`) whose results have the fixed lengths 20, 32, 48
  and 64.
* `Wrappers`: `Option` and `Result`.

Code that changes state is modelled imperatively:

* `SapH.Format` holds `saved_plain`, `crypt_key` and the current salt.
  The round loop of `crypt_all_N` overwrites the digest area of a byte
  array in place.
* `HmacSha1.Format` holds `ipad`, `opad`, `cursalt` and `crypt_key` as
  arrays. `set_key`'s memset and XOR loops run over those arrays.

Parsing is modelled as functions. The loops of the HMAC `valid` and
`binary`, and `salt`'s memset and memcpy, are also methods
(`HmacSha1.IsValid`, `HmacSha1.ReadBinary`, `HmacSha1.SaltOf`), each
proved equal to its function. sapH's scans for `}` and for a space are `Bytes.Find` inside the
parsing functions; no method stands behind them.

Notes on the source:

* a count of 0 passes `valid` (src/sapH_fmt_plug.c:167), and round 0 then
  runs alone (the loop at line 235 does not run);
* the payload is digest ‖ salt: `binary` takes the first 16 decoded bytes
  (line 347), and `get_salt` copies the salt from offset `hash_len` (line 372);
* the scalar HMAC `valid` accepts salts of up to 64 bytes
  (src/hmacSHA1_fmt.c:113). The SIMD build, which is not modelled, stops
  at 55 (line 111);
* the salt `type` is 1 to 4 (src/sapH_fmt_plug.c:361-364), although the
  struct's comment says 1, 256, 384 or 512.

## Model

| member | source | states |
|---|---|---|
| SapH.TypeOf | src/sapH_fmt_plug.c:313-326 | the switch of crypt_all selects a digest exactly for types 1 to 4, and the digest it selects has that type number |
| SapH.Valid | src/sapH_fmt_plug.c:142-185 | an accepted record starts with `{x-is`, holds a `}` and carries one of the four case-sensitive tags; no case-sensitive tag means rejection |
| SapH.ExactTag | src/sapH_fmt_plug.c:149-158 | a tag it reports is present at offset 5, compared case-sensitively |
| SapH.ExactTagNone | src/sapH_fmt_plug.c:149-160 | valid finds no tag exactly when none of the four tags is at offset 5 |
| SapH.AnyCaseTag | src/sapH_fmt_plug.c:361-365 | a tag it reports is present at offset 5, compared ignoring case |
| SapH.AnyCaseTagNone | src/sapH_fmt_plug.c:361-365 | get_salt takes the bad-signature path exactly when none of the four tags is at offset 5, even ignoring case |
| SapH.Strtok | src/sapH_fmt_plug.c:165-171 | `strtok` with one delimiter: a token it returns is non-empty and holds no delimiter |
| SapH.StrtokSkips | src/sapH_fmt_plug.c:165-171 | `strtok` skips a leading delimiter: an extra delimiter in front gives the same token and remainder, which is why valid accepts a `}` or spaces where a field should begin |
| SapH.ValidBody | src/sapH_fmt_plug.c:163-178 | valid's strtok-based body check passes only if the body holds a `}`, so the later `}` scans of get_salt and binary stop inside the text |
| SapH.ValidOnAdjacentFields | src/sapH_fmt_plug.c:163-178 | on a body whose count and payload follow the tag and the `}` directly, the body check passes exactly when the count is isdecu, the payload is all base64, and the decoded length minus the digest size is 1 to 16 |
| SapH.Payload | src/sapH_fmt_plug.c:367-370 | the scan for `}` fails (MissingBrace) exactly when the text holds no `}`; otherwise the text after the first `}` is decoded |
| SapH.ValidStrict | src/sapH_fmt_plug.c:142-185 | a record the intended grammar accepts starts with `{x-is`, carries a case-sensitive tag and holds a `}`; see Findings |
| SapH.TagsMatch | src/sapH_fmt_plug.c:149-158 | a record carrying a tag is matched to that tag and no other, both case-sensitively and ignoring case, so the tag fixes the digest size |
| SapH.ValidStrictIsValid | src/sapH_fmt_plug.c:142-185 | every record the intended grammar accepts is accepted by valid |
| SapH.SaltLengthBoundary | src/sapH_fmt_plug.c:174-178 | with the uncapped decoder of this model, a rendered record is accepted exactly when its salt has 1 to 16 bytes, so 16 is accepted and 17 rejected (see Left out for SHA-512) |
| SapH.ZeroIterationsAccepted | src/sapH_fmt_plug.c:166-167 | a count of 0 passes valid, and get_salt then records 0 iterations |
| SapH.TagCaseDiffers | src/sapH_fmt_plug.c:151-158 | `{x-isSHA, ` is refused by valid yet read as SHA-1 by get_salt, because valid compares case-sensitively and get_salt ignores case |
| SapH.ExactTagIsAnyCaseTag | src/sapH_fmt_plug.c:359-364 | for a record valid accepts, get_salt and binary read the same tag valid matched |
| SapH.GetSalt | src/sapH_fmt_plug.c:352-374 | a salt record it returns has type 1 to 4, a salt length within 0..16, a 16-byte salt array and a 32-bit count; the bad-signature, missing-brace and out-of-range paths are explicit failures |
| SapH.SaltBody | src/sapH_fmt_plug.c:365-373 | its record's type is the tag's type number, and the record is well formed |
| SapH.SaltOfValidStrict | src/sapH_fmt_plug.c:359-373 | for an accepted record: its type is the tag's, the count is the decimal's value, the salt length is the decoded length minus the digest size, and the salt is the decoded bytes after the digest, zero-padded |
| SapH.SaltOfFields | src/sapH_fmt_plug.c:359-373 | get_salt on a record built from a count, a payload and a tail yields the record computed from the decoded payload and the count's value |
| SapH.Binary | src/sapH_fmt_plug.c:328-350 | a binary it returns has 16 bytes |
| SapH.BinaryOfValidStrict | src/sapH_fmt_plug.c:345-348 | for an accepted record, binary is exactly the first 16 decoded payload bytes |
| SapH.BinaryOfFields | src/sapH_fmt_plug.c:335-348 | binary on a record built from its fields is the first 16 decoded payload bytes |
| SapH.RenderFields | src/sapH_fmt_plug.c:142-185 | a rendered record parses back to its count, payload and empty tail, and valid accepts it exactly when those fields are acceptable |
| SapH.RenderSalt | src/sapH_fmt_plug.c:352-374 | get_salt on a rendered record gives back its type, count and salt |
| SapH.RenderBinary | src/sapH_fmt_plug.c:328-350 | binary on a rendered record gives back the digest's first 16 bytes |
| SapH.RenderRoundTrip | src/sapH_fmt_plug.c:142-185 | a rendered record with a digest of the tag's size and 1 to 16 salt bytes is accepted by the intended grammar and by valid, and get_salt and binary give back its type, count, salt and digest prefix |
| SapH.ValidSkipsEmptyCount | src/sapH_fmt_plug.c:163-167 | valid accepts a record with a `}` where the count should begin, and get_salt then reads no count (0) or fails: see Findings |
| SapH.ValidSkipsSpaceBeforePayload | src/sapH_fmt_plug.c:169-171 | valid accepts a record with a space before the payload, and get_salt, with the modelled decoder, then fails: see Findings |
| SapH.RoundDigest | src/sapH_fmt_plug.c:225-240 | each round's digest has the native size of the selected SHA variant |
| SapH.ChainKey | src/sapH_fmt_plug.c:240 | the stored key of a candidate has 16 bytes |
| SapH.ZeroIterationsIsOneRound | src/sapH_fmt_plug.c:235 | a count of 0 and a count of 1 give the same key, namely the first 16 bytes of H(plaintext ‖ salt) |
| SapH.SaltOnlyInRoundZero | src/sapH_fmt_plug.c:229-238 | the salt enters round 0 only: two salts with the same round-0 digest give the same digest at every later round |
| SapH.RoundsCompose | src/sapH_fmt_plug.c:235-238 | round k + n is n rehashes of plaintext ‖ digest, starting from round k |
| SapH.FullMatchPassesQuickTest | src/sapH_fmt_plug.c:202-218 | when cmp_one would match some candidate below count, cmp_all reports a candidate |
| SapH.Format.constructor | src/sapH_fmt_plug.c:130-140 | every saved plaintext starts empty and every key starts zeroed, with no salt set |
| SapH.Format.SetSalt | src/sapH_fmt_plug.c:187-190 | the current salt becomes the given salt record |
| SapH.Format.SetKey | src/sapH_fmt_plug.c:192-195 | slot `index` of saved_plain becomes the key; every other slot is unchanged |
| SapH.Format.GetKey | src/sapH_fmt_plug.c:197-200 | returns the saved plaintext of the slot, a C string of at most 125 bytes |
| SapH.Format.CmpAll | src/sapH_fmt_plug.c:202-208 | true exactly when some candidate below count shares the binary's first 32-bit word |
| SapH.Format.CmpOne | src/sapH_fmt_plug.c:215-218 | a 16-byte match implies that the first words agree, which is what cmp_all tests |
| SapH.Format.CmpExact | src/sapH_fmt_plug.c:210-213 | always true: the 16-byte cmp_one comparison is final |
| SapH.Format.CryptOne | src/sapH_fmt_plug.c:225-240 | the round loop over the in-place digest area of `tmp` yields the 16-byte chain key of max(iter, 1) rounds |
| SapH.Format.CryptAllWith | src/sapH_fmt_plug.c:220-311 | crypt_all_N sets the chain key of every candidate below count, and leaves every other entry unchanged |
| SapH.Format.CryptAll | src/sapH_fmt_plug.c:313-326 | dispatches types 1 to 4 to SHA-1/256/384/512, writes the chain key of each candidate below pcount, leaves the rest unchanged, computes nothing for any other type, and returns pcount |
| SapH.CheckCandidate | src/sapH_fmt_plug.c:187-326 | set_salt, set_key, crypt_all and the three comparators report a match exactly when the binary equals the candidate's chain key |
| HmacSha1.HexValue | src/hmacSHA1_fmt.c:320 | the value of a hex digit is below 16 |
| HmacSha1.HexChar | src/hmacSHA1_fmt.c:316-321 | renders a nibble as a lower-case hex digit whose value is that nibble |
| HmacSha1.HexDecode | src/hmacSHA1_fmt.c:318-321 | 2n hex digits decode to n bytes |
| HmacSha1.HexDecodeAt | src/hmacSHA1_fmt.c:318-321 | decoded byte i is 16·hex(c[2i]) + hex(c[2i+1]) |
| HmacSha1.HexDecodeLowerHex | src/hmacSHA1_fmt.c:316-321 | decoding the lower-case hex of any bytes gives those bytes back |
| HmacSha1.LowerHexHexDecode | src/hmacSHA1_fmt.c:316-321 | rendering decoded hex in lower case gives back the digits in lower case |
| HmacSha1.LowerKeepsHexDecode | src/hmacSHA1_fmt.c:129-132 | lower-casing hex digits keeps them hex and decodes to the same bytes |
| HmacSha1.Sep | src/hmacSHA1_fmt.c:107-109 | the salt ends at the last `#`; no `#` follows it |
| HmacSha1.Valid | src/hmacSHA1_fmt.c:102-125 | an accepted record has a `#` at most 64 bytes in and 40 hex digits after the last one, which is what binary reads, and fits in split's 105-byte copy |
| HmacSha1.ValidParts | src/hmacSHA1_fmt.c:102-125 | for salt ‖ `#` ‖ digits with no `#` in the digits: the salt and the digits are read back, and valid holds exactly when the salt has at most 64 bytes and the digits are 40 hex digits |
| HmacSha1.ValidFacts | src/hmacSHA1_fmt.c:102-125 | a valid record is its salt, `#` and 40 hex digits, with a salt of at most 64 bytes, and fits in 105 bytes |
| HmacSha1.IsValid | src/hmacSHA1_fmt.c:102-125 | the scan (last `#`, salt bound, digit count, then the hex loop) accepts exactly the valid records |
| HmacSha1.Truncate | src/hmacSHA1_fmt.c:131 | strnzcpy keeps a prefix of at most 105 bytes, and the whole text when it is that short |
| HmacSha1.Split | src/hmacSHA1_fmt.c:127-135 | split keeps the length of the (at most 105-byte) copy, leaves every byte before the last `#` unchanged, and keeps the `#` in place |
| HmacSha1.SplitOfValid | src/hmacSHA1_fmt.c:127-135 | on a valid record split cuts nothing, lower-cases the digits, keeps the salt bytes, and yields a valid record with the same salt, salt buffer and binary |
| HmacSha1.SplitIdempotent | src/hmacSHA1_fmt.c:127-135 | split is idempotent on every input it accepts |
| HmacSha1.SplitUnifiesCase | src/hmacSHA1_fmt.c:132 | valid records that differ only in the case of their digits split alike |
| HmacSha1.SplitIsRender | src/hmacSHA1_fmt.c:127-135 | the split of a valid record is the rendering of its salt and binary |
| HmacSha1.RenderRoundTrip | src/hmacSHA1_fmt.c:102-135 | a rendered record with a salt of at most 64 bytes is valid, gives back its salt and digest, and is its own split |
| HmacSha1.Binary | src/hmacSHA1_fmt.c:308-326 | binary has 20 bytes |
| HmacSha1.ReadBinary | src/hmacSHA1_fmt.c:308-326 | the backward scan to the last `#` and the 20-step decoding loop compute the binary |
| HmacSha1.SaltBuffer | src/hmacSHA1_fmt.c:328-338 | the salt buffer has 64 bytes |
| HmacSha1.SaltOf | src/hmacSHA1_fmt.c:328-338 | memset followed by memcpy yields the bytes before the last `#`, zero-padded to 64 |
| HmacSha1.FullSaltUnterminated | src/hmacSHA1_fmt.c:113 | a valid record with a 64-byte salt leaves the salt buffer without a terminator: see Findings |
| Bytes.CStrLen | src/hmacSHA1_fmt.c:297 | `strlen` of a buffer is None exactly when the buffer holds no NUL; otherwise it is the index of the first NUL, and no NUL comes before it |
| HmacSha1.FullSaltAccepted | src/hmacSHA1_fmt.c:113 | 64 × `a`, `#`, 40 × `0` is such a record: see Findings |
| HmacSha1.SaltTerminated | src/hmacSHA1_fmt.c:297 | with at most 63 salt bytes, strlen of the salt buffer is the salt's length, and the bytes before it are the salt |
| HmacSha1.XorEach | src/hmacSHA1_fmt.c:213-224 | each byte is XORed with the pad byte |
| HmacSha1.HmacKey | src/hmacSHA1_fmt.c:203-211 | the padded key never exceeds a 64-byte block |
| HmacSha1.PadBlock | src/hmacSHA1_fmt.c:200-224 | a 64-byte block: pad byte XOR key byte i for i below the key's length, and the pad byte XOR 0 beyond it |
| HmacSha1.PadPrefixStart | src/hmacSHA1_fmt.c:200-201 | before any key byte is XORed in, the block is memset's |
| HmacSha1.PadPrefixStep | src/hmacSHA1_fmt.c:220-224 | XORing key byte i into block byte i takes in one more key byte |
| HmacSha1.PadPrefixDone | src/hmacSHA1_fmt.c:213-224 | once every key byte is in, the block is (K ‖ zeros) XOR pad, for both pads |
| HmacSha1.Hmac | src/hmacSHA1_fmt.c:293-303 | HMAC-SHA1 as in section 2 of RFC 2104 gives 20 bytes |
| HmacSha1.LongKeyHashed | src/hmacSHA1_fmt.c:203-211 | a key longer than a block gives the same MAC as its SHA-1 digest |
| HmacSha1.BinaryHash | src/hmacSHA1_fmt.c:359-365 | binary_hash_n never exceeds its mask |
| HmacSha1.MaskNests | src/hmacSHA1_fmt.c:359-365 | each mask keeps a subset of the bits the next one keeps |
| HmacSha1.MasksNest | src/hmacSHA1_fmt.c:359-365 | each mask keeps a subset of the bits of every later mask |
| HmacSha1.HashLevelsNest | src/hmacSHA1_fmt.c:359-365 | a smaller table's hash is a larger table's hash masked again |
| HmacSha1.Format.constructor | src/hmacSHA1_fmt.c:74-80 | every static buffer starts zeroed, with an empty saved plaintext |
| HmacSha1.Format.SetSalt | src/hmacSHA1_fmt.c:137-144 | cursalt becomes the 64-byte salt buffer |
| HmacSha1.Format.SetKey | src/hmacSHA1_fmt.c:193-225 | saved_plain is the key; ipad and opad are the RFC 2104 pad blocks of the key, or of its SHA-1 digest for keys longer than 64 bytes |
| HmacSha1.Format.XorKey | src/hmacSHA1_fmt.c:213-224 | the XOR loop turns memset's blocks into the pad blocks of the key |
| HmacSha1.Format.GetKey | src/hmacSHA1_fmt.c:228-235 | returns saved_plain, a C string of at most 125 bytes |
| HmacSha1.Format.CryptAll | src/hmacSHA1_fmt.c:276-306 | crypt_key becomes SHA1(opad ‖ SHA1(ipad ‖ cursalt up to its first NUL)), and the result is the count; without a NUL in cursalt the result is an error and crypt_key is unchanged |
| HmacSha1.Format.CmpAll | src/hmacSHA1_fmt.c:237-255 | a full match is never rejected by the first-word test |
| HmacSha1.Format.CmpOne | src/hmacSHA1_fmt.c:257-269 | true exactly when all 20 bytes agree, and then cmp_all is true too |
| HmacSha1.Format.CmpExact | src/hmacSHA1_fmt.c:271-274 | always true: cmp_one already compares the whole digest |
| HmacSha1.Format.GetHash | src/hmacSHA1_fmt.c:377-385 | get_hash_n applies to crypt_key the same mask binary_hash_n applies to a binary |
| HmacSha1.LoadRecord | src/hmacSHA1_fmt.c:127-357 | split (127-135), then salt (328-357) and binary (308-326) of the split text: the salt buffer is 64 bytes, terminated right after the salt, and the binary is the record's |
| HmacSha1.CheckCandidate | src/hmacSHA1_fmt.c:137-306 | for a record with at most 63 salt bytes, loading it, setting the salt, setting the key, crypt_all and the comparators report a match exactly when the stored digest is HMAC-SHA1 of the salt under the candidate |
| Decimal.ValueOfRender | src/sapH_fmt_plug.c:166-167 | a rendered count reads back as its value |
| Decimal.RenderIsDecU | src/sapH_fmt_plug.c:166-167 | a rendered count of a 32-bit value passes isdecu |
| Decimal.ScanUOfDecU | src/sapH_fmt_plug.c:366 | `sscanf("%u")` of a text that starts with an isdecu count followed by a non-digit reads that count's value |
| Decimal.ScanU | src/sapH_fmt_plug.c:366 | a value `sscanf("%u")` reads is below 2^32 |
| Decimal.ScanUNone | src/sapH_fmt_plug.c:366 | `sscanf("%u")` converts nothing exactly when no digit follows the white space and an optional sign; `iter` then keeps the memset's 0 |
| Base64.DecodeEncode | src/sapH_fmt_plug.c:345-372 | decoding the encoding of any bytes gives those bytes back |
| Base64.TokenBytes | src/sapH_fmt_plug.c:169-173 | a whole MIME token holds only alphabet characters and `=`, so no space or `}` that would end it |

## Left out

- SHA-1/256/384/512 are not modelled internally. `Sha.Suite` supplies them as functions with fixed output lengths. Init/Update/Final is modelled as hashing the concatenation of the updates. The fixture vectors (src/sapH_fmt_plug.c:97-118, src/hmacSHA1_fmt.c:53-56) cannot be checked this way.
- `base64_convert` and `base64_valid_length` (`base64_convert.c`) are not part of this model, and neither are their flags. The model uses a MIME decoder instead:
  - it decodes the leading run of alphabet characters and stops at the first other byte;
  - the valid length is that run plus the `=` run after it;
  - the decoder's 80-byte output cap, `MAX_BINARY_SIZE+SALT_LENGTH`, is not modelled. Decoding is unbounded.
- `isdecu`, `atoi16`, `strlwr` and `strnzcpy` (`misc.h`, `common.h`) are not part of this model. They are given their usual meanings:
  - `isdecu`: a canonical unsigned decimal below 2^32;
  - `atoi16`: hex digit values;
  - `strlwr`: C-locale `tolower`;
  - `strnzcpy`: copies at most n − 1 bytes.
- OpenMP is left out. The loop over candidates runs sequentially. Its iterations are independent.
- The `MMX_COEF` SIMD code of src/hmacSHA1_fmt.c is left out. This covers the interleaved buffers, `GETPOS`, byte swapping, `clear_keys`, the SIMD salt layout and the 55-byte SIMD salt bound.
- `salt_hash` (src/sapH_fmt_plug.c:390-400) is left out: it hashes the in-memory layout of a C struct.
- Also left out: sapH's `get_hash_N` (382-388), `sapH_type`, `iteration_count` and `split` (which returns its input), along with the `fmt_main` tables and `mem_calloc_tiny`.
- The fatal `fprintf`/`error()` paths of sapH `get_salt` and `binary` become `ParseError` failures. So do `get_salt`'s copies outside a buffer: a negative or over-long salt length.
- SapH.Binary: with fewer than 16 decoded bytes, the `memcpy` of src/sapH_fmt_plug.c:347 still copies 16 bytes out of the 84-byte `tmp` buffer. `binary` then returns normally: the bytes past the decoded length are uninitialised stack contents. The model returns `Failure(ShortPayload)` instead, because that content is not a value it can state. `valid` accepts such records: with `}1024}` after the tag (see Findings), only `1024` is decoded, which gives 3 bytes.
- The `keeptr` leak on the early returns of sapH `valid` is left out.
- Out-of-bounds reads become errors. HMAC `crypt_all` calls `strlen` on a `cursalt` with no NUL; it becomes `Failure(SaltOverrun)`, and nothing is computed. What the C code would read past the buffer is not modelled.
- sapH's `while (*cp != '}')` scans are modelled as `Find`. A record without a `}` fails with `MissingBrace` instead of reading past the string.
- Sizes: saved plaintexts are sequences of at most 125 non-NUL bytes, not `PLAINTEXT_LENGTH + 1`-byte buffers. The sapH salt is a record value, as `set_salt` keeps only a pointer to it.
- SapH.SaltLengthBoundary holds only for the uncapped decoder of this model. The source passes an 80-byte output limit, `MAX_BINARY_SIZE+SALT_LENGTH` (src/sapH_fmt_plug.c:174-175), and a SHA-512 record with a 17-byte salt decodes to 81 bytes. If `base64_convert` truncates at that limit, such a record passes `valid` with a salt length of 16. What the decoder does at its limit is not part of this model. For SHA-1, SHA-256 and SHA-384 the limit is not reached by salts of up to 17 bytes.
- SapH.ValidSkipsSpaceBeforePayload: `get_salt`'s failure rests on the modelled decoder stopping at the first non-alphabet byte. A MIME decoder that skips whitespace would read the payload after the space. That `valid` accepts the record does not depend on the decoder.
- SapH.CheckCandidate takes the salt record and binary that `get_salt` and `binary` produced, not the record text. SapH.SaltOfValidStrict and SapH.BinaryOfValidStrict say what those are for an accepted record.
- HmacSha1.Format.CmpAll states only that a full match passes. Its exact test, equality of the first little-endian 32-bit word, is its body.
- SapH.Format.CryptOne: the round counter is unbounded. The C `int` counter compared with an `unsigned` count is not modelled.

## Findings

| source | as written | input that shows it | evidently intended | confidence | as-written member | corrected member |
|---|---|---|---|---|---|---|
| src/sapH_fmt_plug.c:163-171 | valid tokenises with `strtok`. strtok skips leading delimiters, so valid accepts a `}` where the count should begin, or spaces before the payload. get_salt and binary read right after the tag and the `}` (lines 366-369, 345-347). | `{x-issha, }1024}<payload>`: valid accepts it, get_salt reads 0 iterations or fails. `{x-issha, 1024} <payload>`: valid accepts it; with a decoder that stops at the space (the one modelled), get_salt decodes nothing and fails. | the count directly after the tag and the payload directly after the `}` | not executed | SapH.ValidSkipsEmptyCount, SapH.ValidSkipsSpaceBeforePayload | SapH.ValidStrict (with SapH.ValidStrictIsValid, SapH.SaltOfValidStrict, SapH.BinaryOfValidStrict, SapH.RenderRoundTrip) |
| src/hmacSHA1_fmt.c:113 | the scalar valid accepts a salt of SALT_SIZE = 64 bytes. The salt buffer and `cursalt` (line 78) have 64 bytes, so its NUL is lost, and crypt_all's `strlen(cursalt)` (line 297) reads past the buffer. | 64 × `a`, `#`, 40 × `0` | at most 63 salt bytes, so the salt buffer keeps its terminator | not executed | HmacSha1.FullSaltAccepted, HmacSha1.FullSaltUnterminated | HmacSha1.ValidCorrected (with HmacSha1.SaltTerminated, HmacSha1.LoadRecord, HmacSha1.CheckCandidate) |
