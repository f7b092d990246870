# Privacy Risk Rating — a verified model of the rater's core

The Privacy Risk Rating app (`app.js`) rates a privacy risk from four levels
(cost, linkability, ease, identifiability), a risk type and a set of
identification types, and shares an assessment as a six-character
code. This project models in Dafny the parts of `app.js` that decide what the
app computes:

- **Scoring** (`computeScores`). Likelihood is the rounded mean of cost,
  linkability and ease. Impact is the rounded mean of identifiability and a
  scaled weight of the selected identification types, plus a risk-type
  adjustment. The overall band comes from the 3×3 likelihood-by-impact matrix.
- **Share code** (`encodeCode` / `decodeCode`). The record is packed into 16
  bits and framed as `[version, low byte, high byte, CRC-8]`. The frame is
  written in unpadded URL-safe Base64. Decoding checks length, version and CRC,
  in that order.
- **CRC-8** (`crc8`). Polynomial 0x07, initial value 0, computed bit by bit.
- **Base64URL** (`base64UrlEncode` / `base64UrlDecode`). `btoa` and `atob` are
  modelled as the HTML standard defines them.
- **Helpers**: `clamp` and `avg`.
- **The `state` object and its handlers**: the five setters,
  `toggleIdType`, `resetAll` and `applyCodeFromInput`.

The files are modules that follow the structure of `app.js`:

| file | module | what |
|---|---|---|
| `helpers.dfy` | `Helpers` | `clamp`, `avg`, `Math.round` on exact ratios, the 32-bit pattern of an integer |
| `assessment.dfy` | `Assessment` | the assessment record, `CONFIG` constants, mask bits and the toggle |
| `crc8.dfy` | `Crc` | `crc8` as a loop, its specification and its error-detection properties |
| `base64url.dfy` | `Base64Url` | `btoa`, `atob`, the URL-safe mapping, the byte-array copy loop, the round trip |
| `codec.dfy` | `Codec` | packing, framing, `encodeCode`, `decodeCode`, round trip and rejection |
| `scoring.dfy` | `Scoring` | `computeScores` with its push loop, bounds, monotonicity and risk-type effect |
| `rater_app.dfy` | `RaterApp` | the `state` object as a class, `String.prototype.trim`, the handlers |

How the source's forms map to Dafny:

- Loops are methods with loop invariants, each proved equal to a specification
  function:
  - the two nested loops of `crc8`;
  - the push loop of `computeScores`;
  - the fill loop of `base64UrlDecode`, into a fresh `array<bv8>`.
- The `state` object is a class whose methods update its fields in place.
- JavaScript numbers are modelled as exact integers and ratios. Every average
  the app rounds is a sum of quarters over at most four values. A tie
  (`x.5`) is always a dyadic value that floating point holds exactly. A
  non-tie is at least 1/6 away from the nearest half. So `Math.round` of
  the exact ratio equals `Math.round` of the floating-point value.
- Bit operations on packed fields are on `bv32` and `bv16`.
- Bytes are `bv8`.
- The identification-type mask is `bv4`. The defaults, `decodeCode`'s
  `& 0b1111` and toggling one of the four chips all leave bits 4 and up clear.

## Model

| member | source | states |
|---|---|---|
| Helpers.Clamp | app.js:213 | `clamp(n, a, b)` lies in [a, b] when a ≤ b. It is n when n is inside, and the violated bound when n is outside. When the bounds cross, the result is a, because `Math.max` is applied last. |
| Helpers.ClampMonotone | app.js:213 | `clamp` never decreases when its argument grows |
| Helpers.Avg | app.js:214 | the numerator is the sum of the array and the denominator its length, or 1 for an empty array, so an empty array averages to 0 |
| Helpers.AvgBounds | app.js:214 | the average of values that all lie in [lo, hi] lies in [lo, hi] |
| Helpers.RoundHalfUp | app.js:109 | `Math.round(p/q)` is the integer r with p/q − 1/2 < r ≤ p/q + 1/2, so halves round up |
| Helpers.RoundHalfUpUnique | app.js:109 | that bracket determines the rounded value uniquely |
| Helpers.RoundHalfUpMonotone | app.js:109 | rounding never decreases when the value grows |
| Assessment.DefaultsInRange | app.js:35-46 | the initial state has every level and the risk type in 1..3, no identification type, and risk type Security |
| Assessment.ToggleBit | app.js:83 | `mask ^ (1 << idx)` flips the selection of type idx and leaves the other three types as they were |
| Assessment.ToggleTwice | app.js:83 | toggling the same type twice restores the mask |
| Assessment.MaskBySelection | app.js:43-44 | two masks that select the same four types are the same mask |
| Assessment.ToggleBitUnique | app.js:83 | `mask ^ (1 << idx)` is the only mask that flips type idx and keeps the other three types |
| Crc.Crc8 | app.js:200-210 | the nested loops (XOR in a byte, eight shift/XOR-0x07 steps masked to a byte) compute `Crc8Of` of the input |
| Crc.EmptyCrc | app.js:200-210 | the CRC of no bytes is the initial value 0x00 |
| Crc.CheckValue | app.js:199-210 | the CRC of the ASCII text "123456789" is 0xF4, the published check value of CRC-8/SMBUS (poly 0x07, init 0, no reflection, no final XOR) |
| Crc.ShiftBitInjective | app.js:204-205 | one shift/XOR-0x07 step is injective on the 8-bit register |
| Crc.UpdateByteInjective | app.js:202-207 | equal registers after processing a byte imply equal `crc ^ b` before the eight steps |
| Crc.CrcFromInjective | app.js:201-208 | processing the same trailing bytes maps different registers to different results |
| Crc.DetectsSingleByteError | app.js:200-210 | two inputs of equal length that differ in exactly one byte have different CRCs; this covers every single-bit error |
| Base64Url.StdChars | app.js:187 | each 6-bit value gives one character, and every character is in the standard alphabet `A-Za-z0-9+/` |
| Base64Url.StdIndexOfChar | app.js:192-193 | `atob`'s character lookup inverts the standard alphabet on every 6-bit value |
| Base64Url.UrlChars | app.js:187 | the URL-safe characters of 6-bit values are all in `A-Za-z0-9-_` |
| Base64Url.EncodeSextets | app.js:186-187 | n bytes give ⌈4n/3⌉ 6-bit values, each below 64 |
| Base64Url.DecodeSextets | app.js:193 | m values (m not 1 mod 4) give ⌊3m/4⌋ bytes |
| Base64Url.SextetsRoundTrip | app.js:186-193 | decoding the 6-bit groups of any bytes gives the bytes back, and their count is never 1 mod 4 |
| Base64Url.Btoa | app.js:187 | `btoa`'s output length is a multiple of four |
| Base64Url.EncodedLength | app.js:187 | ⌈4n/3⌉ characters plus `btoa`'s padding make a multiple of four, and ⌈4n/3⌉ is never 1 mod 4 |
| Base64Url.Replace | app.js:187 | `replace(/x/g, y)` keeps the length and changes exactly the occurrences of x |
| Base64Url.StripTrailingPadding | app.js:187 | `replace(/=+$/g, "")` returns a prefix that does not end in '='; everything it removes is '=' |
| Base64Url.Base64UrlEncode | app.js:184-189 | `btoa`, the two global replaces and the removal of trailing '=' together yield exactly the URL-safe characters of the 6-bit groups, with no padding |
| Base64Url.EncodeForm | app.js:184-189 | `base64UrlEncode` of n bytes has ⌈4n/3⌉ characters, all from the URL-safe alphabet, so there is never '+', '/' or '=' |
| Base64Url.RemoveAsciiWhitespace | app.js:193 | `atob`'s whitespace removal leaves no ASCII whitespace and never lengthens the text |
| Base64Url.NoWhitespaceUnchanged | app.js:193 | text without ASCII whitespace is left as it is |
| Base64Url.AllWhitespaceRemoved | app.js:193 | text made only of ASCII whitespace is removed entirely |
| Base64Url.RemoveDistributes | app.js:193 | the removal works piece by piece: on a concatenation it concatenates what is left of each part, so every other character is kept, in order |
| Base64Url.Atob | app.js:193 | `atob` as the forgiving-base64 decode of the HTML standard; a successful decode gives at most three bytes per four characters. AtobOfStdText and RepadDropped state what it accepts; RejectsLengthOneModFour and ForeignCharRejected state the two ways it rejects a code |
| Base64Url.Repad | app.js:191 | `"===".slice((len + 3) % 4)` is only '='; it completes a length that is not 1 mod 4 to a multiple of four, and is three '=' on a length of 1 mod 4 |
| Base64Url.Base64UrlDecode | app.js:190-197 | returns the bytes `atob` yields for the re-padded, re-mapped text, or None where `atob` throws |
| Base64Url.ByteArray | app.js:194-195 | the fill loop copies every byte of the binary string into a fresh array |
| Base64Url.RoundTrip | app.js:184-197 | `base64UrlDecode(base64UrlEncode(bytes))` gives `bytes` back, for every byte sequence |
| Base64Url.DecodeUrlChars | app.js:190-197 | decoding URL-safe characters of 6-bit values gives the bytes those values describe |
| Base64Url.RepadDropped | app.js:191-193 | for standard text that is not 1 mod 4 long, `atob` removes exactly the padding `"===".slice(...)` re-adds |
| Base64Url.AtobOfStdText | app.js:193 | standard-alphabet text that is not 1 mod 4 long, re-padded, decodes to the bytes of its 6-bit values |
| Base64Url.RejectsLengthOneModFour | app.js:190-193 | a code whose length is 1 mod 4 is rejected: three '=' are appended, and `atob` refuses the result |
| Base64Url.ForeignCharRejected | app.js:190-193 | a character `atob` can neither decode nor skip, and that the URL-safe mapping leaves alone, makes decoding fail wherever it stands |
| Codec.PackFields | app.js:148-153 | fields that fit two bits each occupy their own bits of the pack: each reads back with its shift and `& 0b11`, the mask sits in bits 10-13, and bits 14 and up are zero |
| Codec.EncodeBytes | app.js:148-160 | the frame is four bytes: the version 1, the two payload bytes, and the CRC-8 of the payload |
| Codec.EncodeCode | app.js:139-161 | `encodeCode` returns the code of the record, six URL-safe characters |
| Codec.Unpack | app.js:172-179 | every unpacked level and risk type lies in 1..4 |
| Codec.Level | app.js:174-178 | a two-bit field plus one lies in 1..4 |
| Codec.DecodeBytes | app.js:165-180 | a decoded record always lies in the code range 1..4 |
| Codec.DecodeCode | app.js:163-181 | `decodeCode` returns the record, or the error it throws: bad Base64, too short, unsupported version, or CRC mismatch |
| Codec.LevelOfBits | app.js:148-178 | a level in 1..4 packs as its value minus one in two bits, and unpacks back to itself |
| Codec.FieldsSurviveBytes | app.js:148-179 | fields that fit their widths survive the split into two bytes and the rejoin, and the reserved bits 14-15 are zero |
| Codec.LevelsSurviveBytes | app.js:148-179 | levels in 1..4 and any mask, packed and split into bytes, unpack to themselves |
| Codec.UnpackPayload | app.js:148-179 | packing a record in the code range and unpacking its payload gives the record back, and bits 14-15 of the pack are zero |
| Codec.BytesRoundTrip | app.js:148-180 | decoding the frame of a record in the code range gives the record back |
| Codec.CodeRoundTrip | app.js:139-181 | `decodeCode(encodeCode(s))` is s for every record whose levels lie in 1..4, which includes every record the controls produce |
| Codec.DecodeOutcomes | app.js:165-170 | each outcome happens exactly when its condition holds: too short iff fewer than 4 bytes; unsupported version iff the first byte is not 1; CRC mismatch iff the CRC byte differs; success iff all checks pass |
| Codec.TrailingBytesIgnored | app.js:165-166 | only the first four bytes matter: longer input decodes as its first four bytes do |
| Codec.CostFourAccepted | app.js:172-174 | a stored field value of 3 is not rejected; the frame [1, 3, 0, 0x3F] decodes to cost 4 |
| Codec.DetectsCorruptedByte | app.js:163-170 | changing any one of a code's four bytes makes decoding fail |
| Codec.DefaultBytes | app.js:148-159 | the initial state packs to 0x0055 and frames as the bytes [1, 0x55, 0x00, 0x4D], 0x4D being the CRC-8 of the payload |
| Codec.DefaultCode | app.js:139-160 | the share code of the initial state is "AVUATQ" |
| Codec.ForeignCodeRejected | app.js:163-164 | a code holding a character outside the standard alphabet that is not '-', '_', '=' or ASCII whitespace fails as bad Base64 |
| Scoring.Likelihood | app.js:109 | the likelihood lies in 1..3 |
| Scoring.SelectedUpTo | app.js:119 | after i rounds the pushed weights number at most i, each between a quarter and one |
| Scoring.IdScaled | app.js:120-121 | the scaled identification level lies in 1..3; it is 1 with nothing selected and 2 or 3 otherwise |
| Scoring.BaseImpact | app.js:124 | the impact before adjustment lies in 1..3 |
| Scoring.Impact | app.js:130 | the adjusted impact lies in 1..3 |
| Scoring.OverallBand | app.js:133 | the matrix entry is likelihood + impact − 2, within 0..4 |
| Scoring.ScoresOf | app.js:107-136 | likelihood and impact lie in 1..3; the band lies in 0..4 and equals likelihood + impact − 2 |
| Scoring.ComputeScores | app.js:107-136 | `computeScores` returns the scores of the record |
| Scoring.CollectSelected | app.js:112-119 | the push loop collects the weights of exactly the set bits, in bit order |
| Scoring.MatrixMonotone | app.js:25-29 | the band never decreases along a row or a column, and strictly increases with each step |
| Scoring.LikelihoodMonotone | app.js:109 | likelihood never decreases when any of cost, linkability or ease increases |
| Scoring.LikelihoodOfLevels | app.js:109 | for levels in 1..3 the likelihood is within 1/3 of their mean; no half can occur |
| Scoring.RiskTypeAdjustment | app.js:127-129 | the adjustment is 0 exactly for risk type 1 (Security), 1 exactly for 2 (Privacy), and 2 for every other value, because the comparisons are strict |
| Scoring.RiskTypeEffect | app.js:127-130 | Security leaves the base impact unchanged, Privacy raises it one level (capped at High), and anything else makes it High |
| Scoring.ImpactMonotoneInIdentifiability | app.js:124-130 | impact never decreases when identifiability increases |
| Scoring.SelectionEmptyIff | app.js:119-120 | nothing is pushed exactly when the mask is zero |
| Scoring.DefaultScores | app.js:107-136 | the initial state scores Medium likelihood, Medium impact and the Medium band |
| Scoring.SecurityScores | app.js:127-133 | for a Security assessment the scores follow from likelihood and base impact alone |
| Scoring.AveragingAloneRoundsUp | app.js:120-121 | selecting only the averaging attack doubles 0.25 to the half 0.5, which `Math.round` takes to 1; the scaled level is 2 |
| RaterApp.TrimStart | app.js:247 | removing leading whitespace leaves a suffix of the input |
| RaterApp.TrimEnd | app.js:247 | removing trailing whitespace leaves a prefix of the input |
| RaterApp.TrimStartRemovesRun | app.js:247 | everything removed at the front is whitespace, and what is kept does not start with whitespace |
| RaterApp.TrimEndRemovesRun | app.js:247 | everything removed at the back is whitespace, and what is kept does not end with whitespace |
| RaterApp.Trim | app.js:247 | `trim` returns a text no longer than the input that neither starts nor ends with whitespace; TrimSurrounded and TrimEmptyIff state what it removes |
| RaterApp.TrimIdempotent | app.js:247 | trimming twice is trimming once |
| RaterApp.TrimEmptyIff | app.js:247-248 | the trimmed text is empty exactly when the input is all whitespace |
| RaterApp.KeptByTrim | app.js:247 | every character that is not whitespace is still in the trimmed text |
| RaterApp.TrimSurrounded | app.js:247 | whitespace around a text that neither starts nor ends with whitespace is exactly what `trim` removes |
| RaterApp.RaterState.constructor | app.js:35-46 | the state starts at the defaults, which lie in the controls' range |
| RaterApp.RaterState.SetCost | app.js:78 | cost becomes `clamp(v, 1, 3)` and nothing else changes; both ranges are preserved |
| RaterApp.RaterState.SetLinkability | app.js:79 | linkability becomes `clamp(v, 1, 3)` and nothing else changes; both ranges are preserved |
| RaterApp.RaterState.SetEase | app.js:80 | ease becomes `clamp(v, 1, 3)` and nothing else changes; both ranges are preserved |
| RaterApp.RaterState.SetIdentifiability | app.js:81 | identifiability becomes `clamp(v, 1, 3)` and nothing else changes; both ranges are preserved |
| RaterApp.RaterState.SetRiskType | app.js:82 | risk type becomes `clamp(v, 1, 3)` and nothing else changes; both ranges are preserved |
| RaterApp.RaterState.ToggleIdType | app.js:83 | type idx flips; the other types and all levels are unchanged |
| RaterApp.RaterState.ResetAll | app.js:266-269 | every field returns to the defaults |
| RaterApp.RaterState.ApplyCodeFromInput | app.js:246-258 | a blank input or a code that fails to decode leaves the state unchanged; a valid code replaces all six fields with the decoded record |
| RaterApp.ApplyResult | app.js:246-257 | the outcome of the handler: an applied record always lies in the code range 1..4, though it may hold level 4, which the controls never set. BlankInputIgnored states when it is ignored, PastedCodeApplies that every genuine code is applied, and ForeignInputRejected that a foreign character makes it rejected |
| RaterApp.PastedCodeApplies | app.js:246-251 | pasting the code of any record in the code range, with any surrounding whitespace, applies exactly that record |
| RaterApp.ForeignInputRejected | app.js:246-256 | pasted text holding a character that is neither whitespace nor one a code can carry is rejected with the Base64 error, and the state is not assigned |
| RaterApp.BlankInputIgnored | app.js:247-248 | the handler returns early exactly when the input is all whitespace |
| RaterApp.UrlCharNotWhitespace | app.js:247 | no URL-safe Base64 character is whitespace, so `trim` never cuts into a code |

## Left out

- Rendering and the DOM (`renderUI`, `buildSegmented`, `buildChips`, element
  text) are not modelled. The value of the code field is the parameter of
  `RaterApp.RaterState.ApplyCodeFromInput`.
- Writing the pasted text back into the output field is not modelled.
- `alert` is represented by the `Rejected(error)` outcome. The message texts
  are not modelled.
- `persist`, `restore` and `clearPersist` (localStorage) are not modelled.
  `restore` can assign arbitrary JSON to the state, including mask bits
  above bit 3. Apart from `restore`, no path of the app sets such a bit: a
  chip index of 4 or more never arises (see `ToggleIdType` below).
- The URL hash is not modelled: `setHash`, `getHash`, `history.replaceState`,
  and the boot path that decodes the hash and silently ignores failures.
- `copyCode` and the clipboard are not modelled.
- `generateAndShowCode` is not modelled separately. It is `encodeCode(state)`
  followed by UI updates.
- Floating point: averages are exact ratios. As argued above, the result of
  `Math.round` is the same. The setters take an integer `v`; the buttons
  pass 1..3.
- RaterApp.RaterState.ToggleIdType: requires `idx < 4`. The only callers
  are the four chips, which pass 0..3. Any other index is outside what
  the app does. With 4..31, `1 << idx` would set a bit above the 4-bit
  mask, and the encoder would drop it.
- The binary string built by `String.fromCharCode` in `base64UrlEncode`, and
  read back with `charCodeAt`, is represented by the byte sequence itself.
  Its per-character loop becomes part of `Btoa`.
- Text is a sequence of Unicode code points, not UTF-16 code units. The
  characters `trim`, `atob` and the code alphabet deal with are all in the
  Basic Multilingual Plane, where the two agree.
- `atob` itself is a browser builtin. It is modelled by its specification
  (the forgiving-base64 decode of the HTML standard): drop ASCII
  whitespace, drop one or two final '=' when the length is a multiple of
  four, reject a length of 1 mod 4 or any character outside the standard
  alphabet, and discard leftover bits.
- Linearity of the CRC (the CRC of an XOR is the XOR of the CRCs) is not
  stated. Error detection is proved directly as injectivity instead.
