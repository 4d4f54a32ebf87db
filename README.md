# Salmon Magic Envelope verification, modelled in Dafny

This project models the verify path of rstat.us's Salmon endpoint, the `post '/feeds/:id/salmon'`
route in `controllers/salmon_handling.rb`. A remote server posts a Magic Envelope: signed XML holding
a base64url payload, an optional data type, encoding and algorithm, and a signature. The route
does five things, and the project models each one:

1. It reads the envelope fields and applies the Magic Envelope defaults. An omitted field gets its
   default value and an empty armored form. A stated field gets the base64url of its text as its
   armored form (`magic_envelope.dfy`).
2. It joins the four armored strings with `.` into the signing input (`magic_envelope.dfy`).
3. It parses the author's key `RSA.<modulus>.<exponent>` into integers with a big-endian fold
   (`rsa_key.dfy`, `big_endian.dfy`).
4. It builds the EMSA-PKCS1-v1_5 block it expects for the SHA-256 digest of the signing input,
   including a padding loop (`emsa.dfy`).
5. It runs the RSA public operation on the signature, puts back the leading zero byte that
   operation drops, and compares the result with the expected block (`emsa.dfy`, `salmon.dfy`).

Other model choices:

- base64url (section 5 of RFC 4648) is modelled in full, as Ruby's `Base64` does it from Ruby 2.3 on
  (`base64url.dfy`). Encoding always pads with `=`. Decoding also accepts input whose `=` padding
  was dropped, and it accepts `+` and `/` as well as `-` and `_`.
- Every text value is a byte string, including the `\x` literals of lines 179-189 (see "## Left out"
  for what that means for the Ruby version).
- SHA-256 is a function parameter.
- The XML lookups are optional values.
- The route is modelled twice. `Salmon.Verify` is a function that gives the first rejection or
  acceptance. `Salmon.HandleSalmon` is a method that reassigns its locals the way the Ruby does.
  Its contract says it computes `Verify`.

The main results:

- `Salmon.AcceptedIff`: the route accepts exactly when textbook RSA verification
  (`s^e mod n` equals the expected block read as an integer) succeeds.
- `Base64Url.DecodeExactly`: the decoder accepts exactly the encodings, padded or not.
- `MagicEnvelope.SigningInputInjective`: the signing input determines the four armored fields.
- The padding-underflow lemmas show what happens with keys too small for the block.

## Model

| member | source | states |
|---|---|---|
| `Base64Url.Encode` | controllers/salmon_handling.rb:36 | `urlsafe_encode64` emits 4 characters for every 3 bytes or part of them, padding included |
| `Base64Url.DecodeEncode` | controllers/salmon_handling.rb:64 | decoding the base64url of any byte string gives that byte string back |
| `Base64Url.Decode` | controllers/salmon_handling.rb:55 | whatever `urlsafe_decode64` accepts is made only of characters of either base64 alphabet and `=`. A nonempty input gives nonempty bytes, and the empty input gives the empty string |
| `Base64Url.DecodeExactly` | controllers/salmon_handling.rb:89 | once `+` and `/` are read as `-` and `_`, `urlsafe_decode64` succeeds with `b` exactly on the padded encoding of `b` and on that encoding without its `=`. It fails on everything else |
| `Base64Url.DecodeEitherAlphabet` | controllers/salmon_handling.rb:161 | `+w==` and `-w==` both decode to the byte `0xFB`, because the decoder takes both alphabets |
| `Base64Url.DecodedHasNoSeparators` | controllers/salmon_handling.rb:85-89 | text that decodes as base64url contains no `.` and no newline |
| `MagicEnvelope.ArmorField` | controllers/salmon_handling.rb:58-76 | absent field: the default value and armored `''`. Present field: the text (lower-cased for encoding and alg) as value. The armored form is the padded base64url of the original-case text and decodes back to it. The armored form is empty exactly when the field is absent or empty |
| `MagicEnvelope.DecodeEnvelope` | controllers/salmon_handling.rb:21-95 | rejections in source order: missing env, missing data, missing sig, undecodable sig, an encoding other than `base64url`, undecodable data. It succeeds exactly when none of these applies. On success the signature and payload are the decoded sig and data text, and the armored data is the data text verbatim. Data type, encoding and algorithm take the defaulted or lower-cased values, and the three armored forms are the `ArmorField` forms of the lookups. No armored field contains `.` |
| `MagicEnvelope.SigningInput` | controllers/salmon_handling.rb:176 | the four armored fields, in order, each between its `.` separators; the length is their sum plus three |
| `MagicEnvelope.SigningInputInjective` | controllers/salmon_handling.rb:176 | two decoded envelopes have the same signing input exactly when all four armored fields agree |
| `MagicEnvelope.StatedDefaultEncodingSignsDifferently` | controllers/salmon_handling.rb:58-66 | stating `base64url` explicitly gives the same encoding value as omitting it, but a different signing input |
| `BigEndian.BytesToInt` | controllers/salmon_handling.rb:166-171 | the `inject` fold is OS2IP (section 4.2 of RFC 8017), and its result is below `256^n` |
| `BigEndian.FoldIsOs2ip` | controllers/salmon_handling.rb:166-168 | folding from accumulator `a` gives `a * 256^n + OS2IP(bytes)` |
| `BigEndian.Os2ipBound` | controllers/salmon_handling.rb:169-171 | `n` bytes denote a number below `256^n` |
| `BigEndian.Os2ipLeadingZeros` | controllers/salmon_handling.rb:165-168 | prepending zero bytes does not change the integer |
| `BigEndian.Os2ipI2osp` | controllers/salmon_handling.rb:194 | reading back the minimal big-endian serialisation gives the number |
| `BigEndian.I2ospOs2ip` | controllers/salmon_handling.rb:194 | a byte string without a leading zero is the minimal serialisation of its value |
| `RsaKey.MatchKey` | controllers/salmon_handling.rb:159 | a one-line key string is matched as that line. The first group never contains `.` or a newline, and the second never contains a newline |
| `RsaKey.ParseKey` | controllers/salmon_handling.rb:159-171 | no match gives a key-format rejection, an undecodable modulus or exponent group gives its own rejection, and a match whose two groups decode always succeeds. On success `modulusBytes` is the decoded modulus length with leading zeros. Modulus and exponent are the OS2IP of the decoded bytes, and the modulus is below `256^modulusBytes` |
| `RsaKey.MatchLineSplits` | controllers/salmon_handling.rb:159 | a matched line is `RSA.` + modulus text + `.` + exponent text, and the modulus text contains no `.` |
| `RsaKey.MatchKeyJoin` | controllers/salmon_handling.rb:159-162 | a one-line key with a dot-free modulus text splits back into its two texts; the exponent text may contain dots |
| `RsaKey.ParseKeyOfEncoded` | controllers/salmon_handling.rb:159-171 | a key published as `RSA.` + base64url(mod) + `.` + base64url(exp) parses to OS2IP(mod), OS2IP(exp) and the byte length of mod |
| `RsaKey.LeadingZeroModulus` | controllers/salmon_handling.rb:165 | a leading zero byte in the published modulus keeps the modulus value but adds one to `modulusBytes` |
| `RsaKey.PublicOperation` | controllers/salmon_handling.rb:192-194 | succeeds exactly when the signature integer is below the modulus. The result is `s^e mod n` in minimal big-endian form, with no leading zero byte |
| `Emsa.PaddingCount` | controllers/salmon_handling.rb:181 | the count reaches the eight bytes RFC 8017 section 9.2 requires exactly when that section's length check `emLen >= tLen + 11` passes. It is negative exactly when the modulus is shorter than the 3 fixed bytes, the prefix and the digest |
| `Emsa.FfRun` | controllers/salmon_handling.rb:183-186 | `max(0, count)` bytes, all `0xFF` |
| `Emsa.BuildPadding` | controllers/salmon_handling.rb:183-186 | the padding loop produces `max(0, count)` bytes, all `0xFF` (a negative count runs zero times) |
| `Emsa.ExpectedBlock` | controllers/salmon_handling.rb:179-189 | `00 01`, then `max(0, count)` bytes of `0xFF`, then `00`, then the DigestInfo prefix and the digest. Its length is `modulusBytes` when the padding count is not negative, and `3 + 19 + digest length` when it is |
| `Emsa.ExpectedBlockIsPkcs1` | controllers/salmon_handling.rb:179-189 | where the RFC 8017 section 9.2 encoding exists (at least 8 padding bytes), it equals the route's block |
| `Emsa.RestoreLeadingZero` | controllers/salmon_handling.rb:194-197 | keeps the integer value, keeps the input as a suffix, adds at most one byte, and never leaves a leading `0x01`. An input that does not start with `0x01` is returned unchanged |
| `Emsa.RestoreIdempotent` | controllers/salmon_handling.rb:194-197 | restoring twice equals restoring once |
| `Emsa.RestoredMatchIffInteger` | controllers/salmon_handling.rb:192-200 | the restored minimal serialisation of `m` equals the expected block exactly when `m` is that block read as an integer |
| `Emsa.TooShortModulusNeverMatches` | controllers/salmon_handling.rb:181-186 | with a 32-byte digest and a modulus of at most 52 bytes, no RSA result matches |
| `Emsa.OneByteShortModulusCanMatch` | controllers/salmon_handling.rb:181-189 | with a 53-byte modulus the count is -1 and the 54-byte block still matches its own integer, which lies below `256^53` |
| `Salmon.Verify` | controllers/salmon_handling.rb:21-207 | an envelope rejection comes first, then a key rejection. With both decoded, the only rejections left are a signature out of range and a mismatch. An accepted envelope is the decoded one |
| `Salmon.HandleSalmon` | controllers/salmon_handling.rb:155-207 | the step-by-step route computes exactly `Salmon.Verify` |
| `Salmon.RejectedBeforeVerification` | controllers/salmon_handling.rb:24-94 | a missing envelope, data or signature, or an encoding that does not lower-case to `base64url`, is rejected for any key and digest |
| `Salmon.AcceptedIff` | controllers/salmon_handling.rb:199-207 | accepted exactly when the envelope and key decode, `s < n`, and `s^e mod n` equals the expected block as an integer |
| `Salmon.SignedEnvelopeAccepted` | controllers/salmon_handling.rb:159-207 | a signature `x^d mod n` over the expected block `x`, checked with a key whose `e` undoes `d` on `x`, is accepted |

## Behaviour of the code worth knowing

- **Short keys.** RFC 8017 section 9.2 stops with "intended encoded message length too short"
  when fewer than 8 padding bytes fit. The code has no such check:
  - Counts from 0 to 7 give a block anyway (`Emsa.ExpectedBlockIsPkcs1`).
  - A negative count makes `times` run zero times, so the block is longer than the modulus.
  - A 53-byte modulus can still verify (`Emsa.OneByteShortModulusCanMatch`). A smaller one never
    does (`Emsa.TooShortModulusNeverMatches`).
- **Algorithm.** The `alg` value is lower-cased and signed over but never compared with anything.
  So any stated algorithm is verified as RSA-SHA256, although the Magic Envelope draft names the
  algorithm the signature uses.
- **Missing `me:data`.** The route reads its `type` attribute at line 31 before the `nil` check at
  line 80. So a missing data element is rejected before the signature is looked for.
- **Encoded forms carry `=` padding.** `urlsafe_encode64` pads, so a stated field's armored form is
  padded, and a signer who armors without `=` signs a different string. Decoding accepts padded
  input, input whose padding was dropped entirely, and the standard alphabet's `+` and `/`.
- **Key modulus length.** `modulusBytes` counts leading zero bytes of the published modulus, as
  the code does. That changes the expected block (`RsaKey.LeadingZeroModulus`).
- **Key string.** It is matched with Ruby's line anchors: the first line that starts with `RSA.`
  and contains another `.` is used.

## Left out

- HTTP routing and status codes: every 404, and every exception raised on malformed input, is a
  `Rejected` outcome with a reason. A 500 is not told apart from a 404.
- XML parsing and the libxml XPath semantics of the lookups: the model takes the results of the
  four lookups as optional values. The document-level `me:sig` search is taken as given.
- Atom parsing of the payload, the check for a local author, author and feed persistence,
  WebFinger key discovery, and the post/follow/unfollow dispatch (lines 96-152, 209-256). They
  depend on external libraries, a database and the network. The key string is a parameter, and a
  failure of the Atom parse between decoding and verification is not modelled.
- SHA-256: a function parameter. Its output length is not fixed at 32 bytes. The padding count uses
  the actual length, as line 181 does, and the output's bytes end the expected block.
- The rsa gem is not part of this model. Its public operation is modelled as RSAEP (section 5.1.1
  of RFC 8017) followed by minimal big-endian serialisation, as the comment at line 194 describes.
- Ruby string encodings and `puts` logging: strings are byte strings, and `downcase` changes only
  ASCII letters. Lines 179-200 are modelled with binary-string semantics for the `"\x30..."` prefix
  and `"\xff"` literals. Ruby 1.9 gives them that reading in a source file without an encoding
  comment. From Ruby 2.0 on, such a file is read as UTF-8, so these literals are UTF-8 strings
  holding invalid bytes. The interpolation at line 189 then mixes them with the binary SHA-256
  digest, and raises an encoding error whenever the digest has a byte of 0x80 or more. The model
  does not capture that failure: under Ruby 2.0 and later the route as written almost never
  reaches `verified = true`. Together with the Ruby 2.3 decoder above, the model follows no single
  Ruby version. It takes the decoding of Ruby 2.3 and the byte semantics the comparison evidently
  intends.
- Tamper detection (a flipped bit makes verification fail) depends on SHA-256 collision
  resistance and RSA hardness. The model has no cryptographic assumptions, so it is not stated.
- Base64Url.Decode: models `urlsafe_decode64` of Ruby 2.3 and later. Earlier versions reject input
  whose `=` padding was dropped, and that behaviour is not modelled.
